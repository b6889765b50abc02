/**
 Decimal fractions over exact numbers: the value of the digits after a dot, and powers of ten.

 The readers collect the digits before and after a dot as two integers, or add a digit's share behind the
 dot one by one; both give the value of the numeral. Products are wrapped in `Times` where the proofs
 only need them as a whole.
 */
module Decimal {
  import opened Text

  /** `std::pow(10.L, n)` */
  function TenTo(n: nat): (p: real)
    ensures p >= 1.0
  {
    Pow10(n) as real
  }

  function Times(x: real, y: real): real { x * y }

  lemma {:induction false} FractionIs(s: string)
    ensures Times(FractionValue(s), TenTo(|s|)) == NatValue(s) as real
  {
    if s != "" {
      FractionIs(s[1..]);
      LeadingDigit(s);
      Combine(DigitValue(s[0]), FractionValue(s[1..]), TenTo(|s| - 1), Pow10(|s| - 1), NatValue(s[1..]));
      hide Times, NatValue;
      assert TenTo(|s|) == 10.0 * TenTo(|s| - 1);
    }
  }

  lemma {:induction false} Combine(d: nat, f: real, q: real, p: nat, n: nat)
    requires q == p as real && Times(f, q) == n as real
    ensures Times((d as real + f) / 10.0, 10.0 * q) == (d * p + n) as real
  {
    var x := d as real + f;
    Cancel(x, q);
    assert x * q == d as real * q + f * q;
    ProductAsReal(d, p);
  }

  lemma {:induction false} Cancel(x: real, q: real)
    ensures Times(x / 10.0, 10.0 * q) == x * q
  {
    var y := x / 10.0;
    assert y * (10.0 * q) == (y * 10.0) * q;
  }

  lemma {:induction false} ProductAsReal(d: nat, p: nat)
    ensures (d * p) as real == d as real * p as real
  {
  }

  lemma {:induction false} TenTimes(d: nat, p: nat)
    ensures d * (10 * p) == 10 * (d * p)
  {
  }

  lemma {:induction false} LeadingDigit(s: string)
    requires s != ""
    ensures NatValue(s) == DigitValue(s[0]) * Pow10(|s| - 1) + NatValue(s[1..])
  {
    var n := |s| - 1;
    hide DigitValue, NatValue;
    NatValueNext(s, 0, n);
    assert s[0..n + 1] == s && s[0..n] == s[..n];
    if n == 0 {
      NatValueNone(s, 0);
      NatValueNone(s, 1);
      assert s[..0] == s[0..0] && s[1..] == s[1..1];
      assert Pow10(0) == 1;
    } else {
      LeadingDigit(s[..n]);
      NatValueNext(s, 1, n);
      assert s[1..n + 1] == s[1..] && s[1..n] == s[..n][1..];
      assert s[..n][0] == s[0] && Pow10(n) == 10 * Pow10(n - 1);
      TenTimes(DigitValue(s[0]), Pow10(n - 1));
    }
  }

  lemma {:induction false} Quotient(s: string)
    ensures FractionValue(s) == NatValue(s) as real / TenTo(|s|)
  {
    hide Times, FractionValue, NatValue, TenTo;
    FractionIs(s);
    Divide(FractionValue(s), TenTo(|s|), NatValue(s) as real);
  }

  lemma {:induction false} Divide(x: real, y: real, z: real)
    requires y >= 1.0 && Times(x, y) == z
    ensures x == z / y
  {
  }

  /** One more digit behind the dot. */
  lemma {:induction false} FractionNext(s: string, c: char)
    ensures FractionValue(s + [c]) == FractionValue(s) + DigitValue(c) as real / TenTo(|s| + 1)
  {
    var t := s + [c];
    Quotient(s);
    Quotient(t);
    NatValueNext(t, 0, |s|);
    assert t[0..|s| + 1] == t && t[0..|s|] == s && t[|s|] == c;
    hide FractionValue, NatValue, DigitValue;
    Shift(NatValue(s) as real, DigitValue(c) as real, TenTo(|s|));
  }

  lemma {:induction false} Shift(n: real, d: real, p: real)
    requires p >= 1.0
    ensures (10.0 * n + d) / (10.0 * p) == n / p + d / (10.0 * p)
  {
    var x, y := n / p, d / (10.0 * p);
    assert x * p == n && y * (10.0 * p) == d;
    assert (x + y) * (10.0 * p) == x * (10.0 * p) + y * (10.0 * p);
    assert x * (10.0 * p) == 10.0 * (x * p);
  }

  /** Ten to an integral power. */
  function TenPower(k: int): real {
    if k >= 0 then TenTo(k) else 1.0 / TenTo(-k)
  }

  // ---- powers of ten ----

  /** An exponent less by one is a tenth, for every power. */
  lemma {:induction false} TenPowerIs(k: int)
    ensures TenPower(0) == 1.0
    ensures TenPower(k + 1) == 10.0 * TenPower(k)
    ensures k >= 0 ==> TenPower(k) == Pow10(k) as real
    ensures k <= 0 ==> Times(TenPower(k), Pow10(-k) as real) == 1.0
  {
    if k >= 0 {
      assert Pow10(k + 1) == 10 * Pow10(k);
    } else {
      var p := TenTo(-k - 1);
      assert Pow10(-k) == 10 * Pow10(-k - 1);
      Tenth(p);
    }
    if k <= 0 { Inverse(TenTo(-k)); }
  }

  lemma {:induction false} Tenth(p: real)
    requires p >= 1.0
    ensures 1.0 / p == 10.0 * (1.0 / (10.0 * p))
  {
  }

  lemma {:induction false} Inverse(p: real)
    requires p >= 1.0
    ensures Times(1.0 / p, p) == 1.0
  {
  }

}
