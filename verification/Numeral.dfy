/**
 The number recogniser (suite/external/vince-csv-parser/data_type.h): which texts are numbers, what they
 denote, and the smallest type that holds them. Values are exact.
 */
module Numeral {
  import opened Text
  import opened Decimal

  datatype DataType = CsvNull | CsvString | CsvInt8 | CsvInt16 | CsvInt32 | CsvInt64 | CsvDouble

  /** The type of a text, and the value written for it if there is one. */
  datatype Reading = Reading(dtype: DataType, value: Option<real>)

  const NULL: Reading := Reading(CsvNull, None)
  const STRING: Reading := Reading(CsvString, None)

  const INT8_MAX: nat := 127
  const INT16_MAX: nat := 32767
  const INT32_MAX: nat := 2147483647
  const INT64_MAX: nat := 9223372036854775807

  /** `_determine_integral_type` of an absolute value. */
  function IntegralType(n: nat): DataType {
    if n <= INT8_MAX then CsvInt8
    else if n <= INT16_MAX then CsvInt16
    else if n <= INT32_MAX then CsvInt32
    else if n <= INT64_MAX then CsvInt64
    else CsvDouble
  }

  // ---- what a text denotes ----

  /** `find_first_not_of(c, i)`, the length standing for `npos`. */
  function SkipChar(s: string, c: char, i: nat): (r: nat)
    requires i <= |s|
    ensures i <= r <= |s| && (r > i ==> s[r - 1] == c) && (r < |s| ==> s[r] != c)
    decreases |s| - i
  {
    if i < |s| && s[i] == c then SkipChar(s, c, i + 1) else i
  }

  predicate IsPad(c: char) { c == ' ' || c == '\t' }

  /** One past `find_last_not_of(" \t")`. */
  function TrimEnd(s: string): (r: nat)
    ensures r <= |s|
  {
    if s != "" && IsPad(s[|s| - 1]) then TrimEnd(s[..|s| - 1]) else |s|
  }

  /** The digits of a text, in order. */
  function Digits(s: string): (r: string)
    ensures AllDigits(r)
  {
    if s == "" then ""
    else Digits(s[..|s| - 1]) + if IsDigit(s[|s| - 1]) then [s[|s| - 1]] else ""
  }

  /** The digits before and after the dot. */
  function Whole(s: string): string { Digits(s[..Find(s, '.', 0)]) }

  function Fraction(s: string): string {
    var d := Find(s, '.', 0);
    if d < |s| then Digits(s[d + 1..]) else ""
  }

  /** Digits with at most one '-' and one '.', anywhere. */
  predicate Plain(s: string) {
    && (forall i :: 0 <= i < |s| ==> IsDigit(s[i]) || s[i] == '-' || s[i] == '.')
    && (forall i, j :: 0 <= i < j < |s| && s[i] == '-' ==> s[j] != '-')
    && (forall i, j :: 0 <= i < j < |s| && s[i] == '.' ==> s[j] != '.')
  }

  function Signed(negative: bool, x: real): real { if negative then -x else x }

  function MantissaValue(s: string): real {
    Signed('-' in s, NatValue(Whole(s)) as real + FractionValue(Fraction(s)))
  }

  /** The position of the first 'e' or 'E', or the length. */
  function ExponentStart(s: string, i: nat): (r: nat)
    requires i <= |s|
    ensures i <= r <= |s| && (r < |s| ==> s[r] == 'e' || s[r] == 'E')
    ensures forall k :: i <= k < r ==> s[k] != 'e' && s[k] != 'E'
    decreases |s| - i
  {
    if i == |s| || s[i] == 'e' || s[i] == 'E' then i else ExponentStart(s, i + 1)
  }

  /** An exponent: digits with at most one '-', not more than the greatest 64-bit integer. */
  function Exponent(s: string): Option<int> {
    if Plain(s) && '.' !in s && Digits(s) != "" && NatValue(Digits(s)) <= INT64_MAX
    then
      var n: int := NatValue(Digits(s));
      Some(if '-' in s then -n else n)
    else None
  }

  function AfterPlus(s: string): string { if s != "" && s[0] == '+' then s[1..] else s }

  /** What the text between the padding and a leading '+' denotes. */
  function ReadBody(b: string): Reading {
    var e := ExponentStart(b, 0);
    var m := b[..e];
    if !Plain(m) then STRING
    else if e < |b| then
      var k := Exponent(AfterPlus(b[e + 1..]));
      if ('.' in m || (e > 0 && e + 1 < |b| && IsDigit(b[e - 1]))) && k.Some?
      then Reading(CsvDouble, Some(Times(MantissaValue(m), TenPower(k.value))))
      else STRING
    else if Digits(m) == "" then NULL
    else Reading(if '.' in m then CsvDouble else IntegralType(NatValue(Digits(m))), Some(MantissaValue(m)))
  }

  /** What a cell denotes as a number. */
  function Read(text: string): Reading {
    var first := SkipChar(text, ' ', 0);
    var start := SkipChar(text, '+', first);
    var end := TrimEnd(text);
    if first == |text| then NULL
    else if start == |text| || end == 0 then STRING
    else ReadBody(if start < end then text[start..end] else "")
  }

  // ---- one more character ----

  lemma {:induction false} DigitsNext(s: string, c: char)
    ensures Digits(s + [c]) == if IsDigit(c) then Digits(s) + [c] else Digits(s)
  {
    var t := s + [c];
    assert t[..|t| - 1] == s && t[|t| - 1] == c;
  }

  lemma {:induction false} FindNext(s: string, x: char, i: nat, c: char)
    requires i <= |s|
    ensures Find(s + [c], x, i) == if Find(s, x, i) < |s| || c == x then Find(s, x, i) else |s| + 1
    decreases |s| - i
  {
    if i < |s| {
      assert (s + [c])[i] == s[i];
      if s[i] != x { FindNext(s, x, i + 1, c); }
    } else {
      assert (s + [c])[i] == c;
    }
  }

  lemma {:induction false} WholeNext(s: string, c: char)
    ensures Whole(s + [c]) == if '.' in s || !IsDigit(c) then Whole(s) else Whole(s) + [c]
  {
    var t := s + [c];
    var d := Find(s, '.', 0);
    FindNext(s, '.', 0, c);
    FindIn(s, '.', 0);
    assert s[0..] == s;
    hide Digits, Find;
    if d < |s| || c == '.' {
      assert t[..d] == s[..d];
    } else {
      assert s[..d] == s && t[..|t|] == t;
      DigitsNext(s, c);
    }
  }

  lemma {:induction false} FractionPartNext(s: string, c: char)
    ensures Fraction(s + [c]) == if '.' in s && IsDigit(c) then Fraction(s) + [c] else Fraction(s)
  {
    var t := s + [c];
    var d := Find(s, '.', 0);
    FindNext(s, '.', 0, c);
    FindIn(s, '.', 0);
    assert s[0..] == s;
    hide Find;
    if d < |s| {
      assert t[d + 1..] == s[d + 1..] + [c];
      DigitsNext(s[d + 1..], c);
    } else if c == '.' {
      assert t[d + 1..] == "";
    }
  }

  /** A digit belongs to the whole part before a dot and to the fraction after it. */
  lemma {:induction false} PartsNext(s: string, c: char)
    ensures Whole(s + [c]) == if '.' in s || !IsDigit(c) then Whole(s) else Whole(s) + [c]
    ensures Fraction(s + [c]) == if '.' in s && IsDigit(c) then Fraction(s) + [c] else Fraction(s)
  {
    hide Whole, Fraction;
    WholeNext(s, c);
    FractionPartNext(s, c);
  }

  lemma {:induction false} NoDigits()
    ensures Digits("") == "" && Whole("") == "" && Fraction("") == "" && NatValue("") == 0 && FractionValue("") == 0.0
  {
  }

  predicate MayFollow(s: string, c: char) {
    IsDigit(c) || (c == '-' && '-' !in s) || (c == '.' && '.' !in s)
  }

  lemma {:induction false} PlainNext(s: string, c: char)
    ensures Plain(s + [c]) <==> Plain(s) && MayFollow(s, c)
  {
    var t := s + [c];
    assert forall i :: 0 <= i < |s| ==> t[i] == s[i];
    assert t[|s|] == c;
  }

  /** No continuation makes up for a character that may not stand. */
  lemma {:induction false} NotPlain(s: string, n: nat)
    requires n <= |s| && Plain(s)
    ensures Plain(s[..n])
  {
  }

  /** What a digit is worth at a place behind the dot. */
  function Share(c: char, place: nat): real { DigitValue(c) as real / TenTo(place) }

  lemma {:induction false} AppendPlace(s: string, c: char)
    ensures FractionValue(s + [c]) == FractionValue(s) + Share(c, |s| + 1)
  {
    hide FractionValue;
    FractionNext(s, c);
  }

  lemma {:induction false} AppendDigit(s: string, c: char)
    ensures NatValue(s + [c]) == 10 * NatValue(s) + DigitValue(c)
  {
    var w := s + [c];
    assert w[..|w| - 1] == s;
  }

  lemma {:induction false} DotlessWhole(s: string)
    requires '.' !in s
    ensures Whole(s) == Digits(s) && Fraction(s) == "" && FractionValue(Fraction(s)) == 0.0
  {
    FindIn(s, '.', 0);
    assert s[0..] == s && s[..|s|] == s;
  }

  lemma {:induction false} AnyDigit(s: string)
    ensures Digits(s) == "" <==> Whole(s) == "" && Fraction(s) == ""
  {
    if s == "" {
      NoDigits();
    } else {
      var front, c := s[..|s| - 1], s[|s| - 1];
      assert s == front + [c];
      AnyDigit(front);
      PartsNext(front, c);
    }
  }

  // ---- the loops ----

  /** `pow10`, multiplying by ten or by a tenth. */
  method PowerOfTen(n: int) returns (ret: real)
    ensures ret == TenPower(n)
  {
    var multiplicand := if n > 0 then 10.0 else 0.1;
    var iterations: nat := if n > 0 then n else -n;
    ret := 1.0;
    for i := 0 to iterations
      invariant ret == if n > 0 then TenTo(i) else 1.0 / TenTo(i)
    {
      assert TenTo(i + 1) == 10.0 * TenTo(i);
      Tenth(TenTo(i));
      ret := Times(ret, multiplicand);
    }
  }

  lemma {:induction false} Tenth(p: real)
    requires p >= 1.0
    ensures Times(1.0 / p, 0.1) == 1.0 / (10.0 * p) && Times(p, 10.0) == 10.0 * p
  {
    var q := 1.0 / p;
    assert q * p == 1.0;
    assert q * 0.1 * (10.0 * p) == q * p;
  }

  /** `data_type_for_exponent`: the exponent, if its type is an integer type. */
  method ReadExponent(s: string) returns (r: Option<int>)
    ensures r == Exponent(s)
  {
    hide NatValue, DigitValue, Plain, Digits;
    var negAllowed, hasDigit := true, false;
    var integral: nat := 0;
    NoDigits();
    EmptyPlain();
    assert s[..0] == "";
    var i := 0;
    while i < |s|
      invariant i <= |s| && Plain(s[..i]) && '.' !in s[..i] && (negAllowed <==> '-' !in s[..i])
      invariant (hasDigit <==> Digits(s[..i]) != "") && integral == NatValue(Digits(s[..i]))
    {
      var c, p := s[i], s[..i];
      assert s[..i + 1] == p + [c];
      PlainNext(p, c);
      DigitsNext(p, c);
      if c == '-' {
        if !negAllowed {
          Cut(s, i + 1);
          return None;
        }
        negAllowed := false;
      } else if IsDigit(c) {
        hasDigit := true;
        AppendDigit(Digits(p), c);
        integral := 10 * integral + DigitValue(c);
      } else {
        if c != '.' { Cut(s, i + 1); }
        return None;
      }
      i := i + 1;
    }
    assert s[..|s|] == s;
    if hasDigit && integral <= INT64_MAX {
      var exponent: int := integral;
      return Some(if negAllowed then exponent else -exponent);
    }
    return None;
  }

  lemma {:induction false} EmptyPlain()
    ensures Plain("")
  {
  }

  lemma {:induction false} Cut(s: string, n: nat)
    requires n <= |s| && !Plain(s[..n])
    ensures !Plain(s)
  {
    if Plain(s) { NotPlain(s, n); }
  }

  /** The body of the loop of `data_type` after the characters `p`. */
  ghost predicate Scanned(p: string, negAllowed: bool, dotAllowed: bool, hasDigit: bool, places: nat,
                          integral: nat, decimal: real) {
    && Plain(p) && (negAllowed <==> '-' !in p) && (dotAllowed <==> '.' !in p) && (hasDigit <==> Digits(p) != "")
    && places == |Fraction(p)| && integral == NatValue(Whole(p)) && decimal == FractionValue(Fraction(p))
  }

  lemma {:induction false} ScannedNone()
    ensures Scanned("", true, true, false, 0, 0, 0.0)
  {
    NoDigits();
  }

  lemma {:induction false} ScannedMark(p: string, c: char, neg: bool, dot: bool, has: bool, places: nat,
      n: nat, x: real)
    requires Scanned(p, neg, dot, has, places, n, x) && ((c == '-' && neg) || (c == '.' && dot))
    ensures Scanned(p + [c], neg && c != '-', dot && c != '.', has, places, n, x)
  {
    PlainNext(p, c);
    DigitsNext(p, c);
    PartsNext(p, c);
    hide Plain, Digits, Whole, Fraction, NatValue, FractionValue;
  }

  lemma {:induction false} ScannedDigit(p: string, c: char, neg: bool, dot: bool, has: bool, places: nat,
      n: nat, x: real)
    requires Scanned(p, neg, dot, has, places, n, x) && IsDigit(c)
    ensures if dot then Scanned(p + [c], neg, dot, true, places, 10 * n + DigitValue(c), x)
            else Scanned(p + [c], neg, dot, true, places + 1, n, x + Share(c, places + 1))
  {
    PlainNext(p, c);
    DigitsNext(p, c);
    PartsNext(p, c);
    hide Plain, Digits, Whole, Fraction, NatValue, FractionValue, DigitValue, Share;
    if dot { AppendDigit(Whole(p), c); } else { AppendPlace(Fraction(p), c); }
  }

  method ReadMantissa(b: string) returns (r: Reading)
    ensures r == ReadBody(b)
  {
    hide Scanned, Plain, NatValue, FractionValue, DigitValue, Share, Digits, Whole, Fraction, Exponent, TenPower, Times;
    var negAllowed, dotAllowed, hasDigit := true, true, false;
    var places: nat, integral: nat, decimal := 0, 0, 0.0;
    ScannedNone();
    assert b[..0] == "";
    var i := 0;
    ghost var e := ExponentStart(b, 0);
    while i < |b|
      invariant i <= e <= |b|
      invariant Scanned(b[..i], negAllowed, dotAllowed, hasDigit, places, integral, decimal)
    {
      var c := b[i];
      assert b[..i + 1] == b[..i] + [c];
      if c == '-' || c == '.' {
        if (if c == '-' then !negAllowed else !dotAllowed) {
          Rejected(b, i, negAllowed, dotAllowed, hasDigit, places, integral, decimal);
          return STRING;
        }
        ScannedMark(b[..i], c, negAllowed, dotAllowed, hasDigit, places, integral, decimal);
        negAllowed, dotAllowed := negAllowed && c != '-', dotAllowed && c != '.';
      } else if c == 'e' || c == 'E' {
        ghost var m := b[..i];
        ScannedMeans(m, negAllowed, dotAllowed, hasDigit, places, integral, decimal);
        if !dotAllowed || (i > 0 && i + 1 < |b| && IsDigit(b[i - 1])) {
          var k := ReadExponent(AfterPlus(b[i + 1..]));
          if k.Some? {
            var power := PowerOfTen(k.value);
            return Reading(CsvDouble, Some(Times(Signed(!negAllowed, integral as real + decimal), power)));
          }
        }
        return STRING;
      } else if IsDigit(c) {
        ScannedDigit(b[..i], c, negAllowed, dotAllowed, hasDigit, places, integral, decimal);
        hasDigit := true;
        if dotAllowed {
          integral := 10 * integral + DigitValue(c);
        } else {
          places := places + 1;
          decimal := decimal + Share(c, places);
        }
      } else {
        Rejected(b, i, negAllowed, dotAllowed, hasDigit, places, integral, decimal);
        return STRING;
      }
      i := i + 1;
    }
    assert b[..|b|] == b;
    ScannedMeans(b, negAllowed, dotAllowed, hasDigit, places, integral, decimal);
    if hasDigit {
      return Reading(if dotAllowed then IntegralType(integral) else CsvDouble,
                     Some(Signed(!negAllowed, integral as real + decimal)));
    }
    return NULL;
  }

  lemma {:induction false} CutAt(m: string, b: string, i: nat)
    requires i < |m| <= |b| && m == b[..|m|] && !Plain(b[..i] + [b[i]])
    ensures !Plain(m)
  {
    hide Plain;
    assert m[..i + 1] == b[..i] + [b[i]];
    Cut(m, i + 1);
  }

  lemma {:induction false} Rejected(b: string, i: nat, neg: bool, dot: bool, has: bool, places: nat, n: nat, x: real)
    requires i < ExponentStart(b, 0) && Scanned(b[..i], neg, dot, has, places, n, x)
    requires !IsDigit(b[i]) && (b[i] == '-' ==> !neg) && (b[i] == '.' ==> !dot)
    ensures !Plain(b[..ExponentStart(b, 0)])
  {
    var m := b[..ExponentStart(b, 0)];
    hide Plain, Digits, Whole, Fraction, NatValue, FractionValue;
    PlainNext(b[..i], b[i]);
    CutAt(m, b, i);
  }

  lemma {:induction false} ScannedMeans(p: string, neg: bool, dot: bool, has: bool, places: nat, n: nat, x: real)
    requires Scanned(p, neg, dot, has, places, n, x)
    ensures Plain(p) && (neg <==> '-' !in p) && (dot <==> '.' !in p) && (has <==> Digits(p) != "")
    ensures MantissaValue(p) == Signed(!neg, n as real + x)
    ensures dot ==> n == NatValue(Digits(p)) && x == 0.0
  {
    hide Plain, Digits, Whole, Fraction, NatValue, FractionValue;
    if dot { DotlessWhole(p); }
  }

  /** `data_type` */
  method Recognise(text: string) returns (r: Reading)
    ensures r == Read(text)
  {
    hide ReadBody, SkipChar, TrimEnd;
    var first := SkipChar(text, ' ', 0);
    if first == |text| {
      return NULL;
    }
    var start := SkipChar(text, '+', first);
    if start == |text| {
      return STRING;
    }
    var end := TrimEnd(text);
    if end == 0 {
      return STRING;
    }
    r := ReadMantissa(if start < end then text[start..end] else "");
  }
}
