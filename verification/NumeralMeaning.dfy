/**
 What the number recogniser makes of the texts that are decimal numerals: the number they denote, and the
 smallest type that holds an integer.
 */
module NumeralMeaning {
  import opened Text
  import opened Decimal
  import opened Numeral

  datatype ExponentPart = ExponentPart(mark: char, plus: bool, negative: bool, digits: string)

  /** A numeral: a minus sign or none, digits, a dot with more digits or none, an exponent or none. */
  datatype Number = Number(negative: bool, whole: string, dotted: bool, fraction: string,
      exponent: Option<ExponentPart>)

  predicate ExponentOk(x: ExponentPart) {
    (x.mark == 'e' || x.mark == 'E') && x.digits != "" && AllDigits(x.digits)
  }

  predicate NumberOk(n: Number) {
    && AllDigits(n.whole) && AllDigits(n.fraction) && (n.whole != "" || n.fraction != "")
    && (n.fraction != "" ==> n.dotted)
    && (n.exponent.Some? ==> ExponentOk(n.exponent.value))
  }

  function SignedText(negative: bool, s: string): string { if negative then ['-'] + s else s }

  function Mantissa(n: Number): string {
    if n.dotted then SignedText(n.negative, n.whole) + (['.'] + n.fraction) else SignedText(n.negative, n.whole)
  }

  /** The text behind the mark; a '+' may stand before the sign. */
  function PowerText(x: ExponentPart): string {
    if x.plus then ['+'] + SignedText(x.negative, x.digits) else SignedText(x.negative, x.digits)
  }

  function NumberText(n: Number): string {
    if n.exponent.Some? then Mantissa(n) + ([n.exponent.value.mark] + PowerText(n.exponent.value)) else Mantissa(n)
  }

  /** m */
  function Coefficient(n: Number): real {
    Signed(n.negative, NatValue(n.whole) as real + FractionValue(n.fraction))
  }

  /** k */
  function Power(x: ExponentPart): int {
    var k: int := NatValue(x.digits);
    if x.negative then -k else k
  }

  /** The number m * 10^k that the numeral denotes, and its type. */
  function Denoted(n: Number): Reading {
    if n.exponent.None? then
      Reading(if n.dotted then CsvDouble else IntegralType(NatValue(n.whole)), Some(Coefficient(n)))
    else if NatValue(n.exponent.value.digits) <= INT64_MAX then
      Reading(CsvDouble, Some(Times(Coefficient(n), TenPower(Power(n.exponent.value)))))
    else STRING
  }

  // ---- the mantissa ----

  lemma {:induction false} DigitsJoin(s: string, t: string)
    ensures Digits(s + t) == Digits(s) + Digits(t)
  {
    if t == "" {
      assert s + t == s;
    } else {
      var front, c := t[..|t| - 1], t[|t| - 1];
      assert s + t == (s + front) + [c] && t == front + [c];
      DigitsJoin(s, front);
      DigitsNext(s + front, c);
      DigitsNext(front, c);
    }
  }

  lemma {:induction false} DigitsSelf(s: string)
    requires AllDigits(s)
    ensures Digits(s) == s
  {
    if s != "" {
      DigitsSelf(s[..|s| - 1]);
      assert s == s[..|s| - 1] + [s[|s| - 1]];
    }
  }

  lemma {:induction false} SignedTextDigits(negative: bool, s: string)
    requires AllDigits(s)
    ensures Digits(SignedText(negative, s)) == s
  {
    DigitsSelf(s);
    if negative {
      DigitsJoin(['-'], s);
      DigitsNext([], '-');
      NoDigits();
      hide Digits;
      assert [] + ['-'] == ['-'] && "" + s == s;
    }
  }

  lemma {:induction false} SignedTextChars(negative: bool, s: string)
    requires AllDigits(s)
    ensures var t := SignedText(negative, s);
      && Plain(t) && ('-' in t <==> negative) && '.' !in t && (negative ==> t[0] == '-')
      && (forall i :: 0 <= i < |t| ==> IsDigit(t[i]) || t[i] == '-') && (s != "" ==> IsDigit(t[|t| - 1]))
  {
    if negative { assert SignedText(negative, s)[0] == '-'; }
  }

  lemma {:induction false} WithDot(a: string, fraction: string)
    requires Plain(a) && '.' !in a && AllDigits(fraction)
    ensures var m := a + (['.'] + fraction);
      && Plain(m) && '.' in m && ('-' in m <==> '-' in a) && Whole(m) == Digits(a) && Fraction(m) == Digits(fraction)
  {
    var m := a + (['.'] + fraction);
    hide Digits, Find;
    Splice(a, '.', fraction);
    assert forall i :: 0 <= i < |m| && m[i] == '-' ==> i < |a| && a[i] == '-';
    FindIs(m, '.', 0, |a|);
  }

  lemma {:induction false} Splice(a: string, x: char, t: string)
    ensures var m := a + ([x] + t);
      && m[..|a|] == a && m[|a|] == x && m[|a| + 1..] == t
      && (forall i :: 0 <= i < |a| ==> m[i] == a[i]) && (forall i :: 0 <= i < |t| ==> m[|a| + 1 + i] == t[i])
  {
  }

  ghost predicate NoExponentMark(m: string) { forall i :: 0 <= i < |m| ==> m[i] != 'e' && m[i] != 'E' }

  lemma {:induction false} PlainMarks(m: string)
    requires Plain(m)
    ensures NoExponentMark(m) && forall i :: 0 <= i < |m| ==> m[i] != ' ' && m[i] != '+' && !IsPad(m[i])
  {
  }

  lemma {:induction false} MantissaParts(n: Number)
    requires NumberOk(n)
    ensures var m := Mantissa(n);
      && Plain(m) && ('.' in m <==> n.dotted) && ('-' in m <==> n.negative)
      && Whole(m) == n.whole && Fraction(m) == n.fraction
  {
    var a := SignedText(n.negative, n.whole);
    SignedTextChars(n.negative, n.whole);
    SignedTextDigits(n.negative, n.whole);
    DigitsSelf(n.fraction);
    hide Plain, Digits, Whole, Fraction, SignedText;
    if n.dotted {
      WithDot(a, n.fraction);
    } else {
      DotlessWhole(a);
    }
  }

  lemma {:induction false} MantissaIs(n: Number)
    requires NumberOk(n)
    ensures var m := Mantissa(n);
      && Plain(m) && m != "" && ('.' in m <==> n.dotted) && (n.dotted || IsDigit(m[|m| - 1]))
      && MantissaValue(m) == Coefficient(n) && Digits(m) != "" && (!n.dotted ==> Digits(m) == n.whole)
  {
    var m := Mantissa(n);
    MantissaParts(n);
    NoDigits();
    AnyDigit(m);
    hide Plain, Digits, Whole, Fraction, NatValue, FractionValue;
    if !n.dotted {
      DotlessWhole(m);
      SignedTextChars(n.negative, n.whole);
    }
    hide SignedText, Mantissa;
  }

  lemma {:induction false} Ends(a: string, x: char, t: string)
    requires a != "" && t != ""
    ensures var m := a + ([x] + t); m != "" && m[0] == a[0] && m[|m| - 1] == t[|t| - 1]
  {
  }

  // ---- the exponent ----

  lemma {:induction false} ExponentIs(x: ExponentPart)
    requires ExponentOk(x)
    ensures PowerText(x) != ""
    ensures Exponent(AfterPlus(PowerText(x))) == if NatValue(x.digits) <= INT64_MAX then Some(Power(x)) else None
  {
    hide Plain, Digits, NatValue, SignedText, AfterPlus;
    SignedTextChars(x.negative, x.digits);
    SignedTextDigits(x.negative, x.digits);
    SignTaken(x);
  }

  lemma {:induction false} SignTaken(x: ExponentPart)
    requires ExponentOk(x)
    ensures PowerText(x) != "" && AfterPlus(PowerText(x)) == SignedText(x.negative, x.digits)
  {
    var s := SignedText(x.negative, x.digits);
    assert s[0] != '+';
    hide SignedText;
    if x.plus { Splice("", '+', s); }
  }

  lemma {:induction false} ExponentStartIs(s: string, i: nat, e: nat)
    requires i <= e <= |s| && (forall k :: i <= k < e ==> s[k] != 'e' && s[k] != 'E')
    requires e < |s| ==> s[e] == 'e' || s[e] == 'E'
    ensures ExponentStart(s, i) == e
    decreases e - i
  {
    if i < e { ExponentStartIs(s, i + 1, e); }
  }

  lemma {:induction false} BodyWithout(m: string)
    requires Plain(m) && NoExponentMark(m) && Digits(m) != ""
    ensures ReadBody(m)
      == Reading(if '.' in m then CsvDouble else IntegralType(NatValue(Digits(m))), Some(MantissaValue(m)))
  {
    ExponentStartIs(m, 0, |m|);
    assert m[..|m|] == m;
    hide Plain, Digits, MantissaValue, NatValue, IntegralType;
  }

  lemma {:induction false} BodyWith(m: string, mark: char, rest: string)
    requires Plain(m) && NoExponentMark(m) && m != "" && rest != "" && (mark == 'e' || mark == 'E')
    requires '.' in m || IsDigit(m[|m| - 1])
    ensures ReadBody(m + ([mark] + rest)) == var k := Exponent(AfterPlus(rest));
      if k.Some? then Reading(CsvDouble, Some(Times(MantissaValue(m), TenPower(k.value)))) else STRING
  {
    var b := m + ([mark] + rest);
    hide Plain, Digits, MantissaValue, Exponent, AfterPlus, Times, TenPower;
    assert b[..|m|] == m && b[|m|] == mark && b[|m| + 1..] == rest && forall i :: 0 <= i < |m| ==> b[i] == m[i];
    ExponentStartIs(b, 0, |m|);
  }

  lemma {:induction false} WholeBody(n: Number)
    requires NumberOk(n) && n.exponent.None?
    ensures ReadBody(NumberText(n)) == Denoted(n)
  {
    var m := Mantissa(n);
    MantissaIs(n);
    PlainMarks(m);
    hide Mantissa, MantissaValue, Coefficient, Digits, NatValue, Plain, IntegralType, ReadBody, NoExponentMark;
    BodyWithout(m);
  }

  lemma {:induction false} ExponentBody(n: Number)
    requires NumberOk(n) && n.exponent.Some?
    ensures ReadBody(NumberText(n)) == Denoted(n)
  {
    var m, x := Mantissa(n), n.exponent.value;
    MantissaIs(n);
    PlainMarks(m);
    hide Mantissa, MantissaValue, Coefficient, Digits, NatValue, Plain, Exponent, Power, Times, TenPower;
    hide AfterPlus, ReadBody, NoExponentMark, PowerText;
    ExponentIs(x);
    BodyWith(m, x.mark, PowerText(x));
  }

  lemma {:induction false} BodyIs(n: Number)
    requires NumberOk(n)
    ensures ReadBody(NumberText(n)) == Denoted(n)
  {
    hide ReadBody, NumberText, Denoted, NumberOk;
    if n.exponent.Some? { ExponentBody(n); } else { WholeBody(n); }
  }

  // ---- the whole text ----

  ghost predicate AllOf(s: string, c: char) { forall i :: 0 <= i < |s| ==> s[i] == c }

  ghost predicate AllPad(s: string) { forall i :: 0 <= i < |s| ==> IsPad(s[i]) }

  lemma {:induction false} SkipCharIs(s: string, c: char, i: nat, r: nat)
    requires i <= r <= |s| && (forall k :: i <= k < r ==> s[k] == c) && (r < |s| ==> s[r] != c)
    ensures SkipChar(s, c, i) == r
    decreases r - i
  {
    if i < r { SkipCharIs(s, c, i + 1, r); }
  }

  lemma {:induction false} TrimEndIs(s: string, r: nat)
    requires r <= |s| && (forall k :: r <= k < |s| ==> IsPad(s[k])) && (r > 0 ==> !IsPad(s[r - 1]))
    ensures TrimEnd(s) == r
  {
    if r < |s| { TrimEndIs(s[..|s| - 1], r); }
  }

  /** The text between padding and plus signs is what is read. */
  lemma {:induction false} Unwrapped(pad: string, plus: string, b: string, trail: string)
    requires AllOf(pad, ' ') && AllOf(plus, '+') && AllPad(trail)
    requires b != "" && b[0] != ' ' && b[0] != '+' && !IsPad(b[|b| - 1])
    ensures Read(pad + plus + b + trail) == ReadBody(b)
  {
    var text := pad + plus + b + trail;
    var first, start, end := |pad|, |pad| + |plus|, |pad| + |plus| + |b|;
    assert text[start..end] == b;
    assert forall k :: first <= k < start ==> text[k] == plus[k - first];
    assert text[start] == b[0] && text[end - 1] == b[|b| - 1];
    SkipCharIs(text, ' ', 0, first);
    SkipCharIs(text, '+', first, start);
    TrimEndIs(text, end);
    hide ReadBody;
  }

  lemma {:induction false} PowerTextEnd(x: ExponentPart)
    requires ExponentOk(x)
    ensures var t := PowerText(x); t != "" && IsDigit(t[|t| - 1])
  {
    var s := SignedText(x.negative, x.digits);
    SignedTextChars(x.negative, x.digits);
    hide SignedText, Plain;
    assert x.plus ==> PowerText(x)[|s|] == s[|s| - 1];
  }

  lemma {:induction false} MantissaEnds(n: Number)
    requires NumberOk(n)
    ensures var m := Mantissa(n); m != "" && m[0] != ' ' && m[0] != '+' && !IsPad(m[|m| - 1])
  {
    MantissaIs(n);
    PlainMarks(Mantissa(n));
    hide Mantissa, MantissaValue, Coefficient, Digits, Plain;
  }

  lemma {:induction false} NumberEnds(n: Number)
    requires NumberOk(n)
    ensures var b := NumberText(n); b != "" && b[0] != ' ' && b[0] != '+' && !IsPad(b[|b| - 1])
  {
    var m := Mantissa(n);
    MantissaEnds(n);
    hide Mantissa, PowerText;
    if n.exponent.Some? {
      var x := n.exponent.value;
      PowerTextEnd(x);
      Ends(m, x.mark, PowerText(x));
    }
  }

  /** Every numeral, padded and with plus signs in front or not, is read as the number it denotes; only an
      exponent beyond the 64-bit integers makes it a string. */
  lemma {:induction false} NumeralExact(n: Number, pad: string, plus: string, trail: string)
    requires NumberOk(n) && AllOf(pad, ' ') && AllOf(plus, '+') && AllPad(trail)
    ensures Read(pad + plus + NumberText(n) + trail) == Denoted(n)
  {
    BodyIs(n);
    NumberEnds(n);
    hide NumberText, Denoted, ReadBody, Read, NumberOk;
    Unwrapped(pad, plus, NumberText(n), trail);
  }

  // ---- white space ----

  ghost predicate White(s: string) { forall i :: 0 <= i < |s| ==> IsSpace(s[i]) }

  lemma {:induction false} TrimEndSpec(s: string)
    ensures forall k :: TrimEnd(s) <= k < |s| ==> IsPad(s[k])
    ensures TrimEnd(s) > 0 ==> !IsPad(s[TrimEnd(s) - 1])
  {
    if s != "" && IsPad(s[|s| - 1]) { TrimEndSpec(s[..|s| - 1]); }
  }

  lemma {:induction false} NotPlainAt(s: string, i: nat)
    requires i < |s| && IsSpace(s[i])
    ensures !Plain(s) && Exponent(s) == None
  {
  }

  /** White space at the start of what is left is no number. */
  lemma {:induction false} WhiteStart(b: string)
    requires b != "" && IsSpace(b[0])
    ensures ReadBody(b) == STRING
  {
    var m := b[..ExponentStart(b, 0)];
    assert m != "" && m[0] == b[0];
    NotPlainAt(m, 0);
    hide Plain, Exponent, MantissaValue;
  }

  /** Nor is white space at its end. */
  lemma {:induction false} WhiteEnd(b: string)
    requires b != "" && IsSpace(b[|b| - 1])
    ensures ReadBody(b) == STRING
  {
    var e := ExponentStart(b, 0);
    hide Plain, Exponent, MantissaValue;
    if e == |b| {
      assert b[..e] == b;
      NotPlainAt(b, |b| - 1);
    } else {
      var rest := b[e + 1..];
      assert rest != "" && rest[|rest| - 1] == b[|b| - 1];
      var x := AfterPlus(rest);
      assert x != "" && x[|x| - 1] == b[|b| - 1];
      NotPlainAt(x, |x| - 1);
    }
  }

  /** A text is read from its first character behind the blanks and plus signs to its last one that is neither a
      blank nor a tab. */
  lemma {:induction false} WhiteRead(text: string, first: nat, start: nat, k: nat)
    requires first <= start <= k < |text| && (forall i :: 0 <= i < first ==> text[i] == ' ')
    requires (forall i :: first <= i < start ==> text[i] == '+') && text[start] != ' ' && text[start] != '+'
    requires !IsPad(text[k])
    ensures var end := TrimEnd(text);
      k < end && !IsPad(text[end - 1]) && Read(text) == ReadBody(text[start..end])
  {
    SkipCharIs(text, ' ', 0, first);
    SkipCharIs(text, '+', first, start);
    TrimEndSpec(text);
    hide ReadBody, TrimEnd;
  }

  lemma {:induction false} WhiteInFront(pad: string, b: string, trail: string)
    requires White(pad) && !AllOf(pad, ' ') && b != "" && !IsPad(b[|b| - 1])
    ensures Read(pad + b + trail) == STRING
  {
    var text := pad + b + trail;
    var i :| 0 <= i < |pad| && pad[i] != ' ';
    var f := FirstNotBlank(pad, i);
    var k := |pad| + |b| - 1;
    assert (forall j :: 0 <= j < f ==> text[j] == pad[j]) && text[f] == pad[f] && text[k] == b[|b| - 1];
    hide Read, ReadBody, TrimEnd;
    WhiteRead(text, f, f, k);
    var body := text[f..TrimEnd(text)];
    assert body != "" && body[0] == pad[f];
    WhiteStart(body);
  }

  lemma {:induction false} FirstNotBlank(s: string, i: nat) returns (f: nat)
    requires i < |s| && s[i] != ' '
    ensures f <= i && s[f] != ' ' && forall j :: 0 <= j < f ==> s[j] == ' '
  {
    f := 0;
    while s[f] == ' '
      invariant f <= i && forall j :: 0 <= j < f ==> s[j] == ' '
      decreases i - f
    {
      f := f + 1;
    }
  }

  lemma {:induction false} SliceEnd(s: string, i: nat, j: nat)
    requires i < j <= |s|
    ensures s[i..j] != "" && s[i..j][|s[i..j]| - 1] == s[j - 1]
  {
  }

  lemma {:induction false} WhiteTail(text: string, first: nat, start: nat, front: nat, q: nat)
    requires first <= start < front <= q < |text| && !IsPad(text[q])
    requires (forall i :: 0 <= i < first ==> text[i] == ' ') && (forall i :: first <= i < start ==> text[i] == '+')
    requires text[start] != ' ' && text[start] != '+' && forall i :: front <= i < |text| ==> IsSpace(text[i])
    ensures Read(text) == STRING
  {
    hide Read, ReadBody, TrimEnd;
    WhiteRead(text, first, start, q);
    var end := TrimEnd(text);
    SliceEnd(text, start, end);
    WhiteEnd(text[start..end]);
  }

  lemma {:induction false} WhiteBehind(pad: string, plus: string, b: string, trail: string)
    requires AllOf(pad, ' ') && AllOf(plus, '+') && White(trail) && !AllPad(trail)
    requires b != "" && b[0] != ' ' && b[0] != '+' && !IsPad(b[|b| - 1])
    ensures Read(pad + plus + b + trail) == STRING
  {
    var text := pad + plus + b + trail;
    var start, front := |pad| + |plus|, |pad| + |plus| + |b|;
    var q :| 0 <= q < |trail| && !IsPad(trail[q]);
    hide Read;
    assert forall i :: |pad| <= i < start ==> text[i] == plus[i - |pad|];
    assert text[start] == b[0] && forall i :: front <= i < |text| ==> text[i] == trail[i - front];
    WhiteTail(text, |pad|, start, front, front + q);
  }

  lemma {:induction false} WhiteBeforePlus(pad: string, plus: string, b: string, trail: string)
    requires White(pad) && !AllOf(pad, ' ') && b != "" && !IsPad(b[|b| - 1])
    ensures Read(pad + plus + b + trail) == STRING
  {
    var c := plus + b;
    assert c != "" && c[|c| - 1] == b[|b| - 1];
    hide Read;
    WhiteInFront(pad, c, trail);
    assert pad + plus + b + trail == pad + c + trail;
  }

  /** A numeral with white space around it is read as the number it denotes exactly when it denotes none, or
      only blanks stand in front of it and only blanks and tabs behind; otherwise it is a string. */
  lemma {:induction false} WhiteSpaceExact(n: Number, pad: string, plus: string, trail: string)
    requires NumberOk(n) && White(pad) && AllOf(plus, '+') && White(trail)
    ensures var r, fits := Read(pad + plus + NumberText(n) + trail), AllOf(pad, ' ') && AllPad(trail);
      && (r == Denoted(n) <==> Denoted(n) == STRING || fits) && (!fits ==> r == STRING)
  {
    var b := NumberText(n);
    NumberEnds(n);
    hide NumberText, Denoted, ReadBody, Read, NumberOk, White, AllOf, AllPad;
    if AllOf(pad, ' ') && AllPad(trail) {
      NumeralExact(n, pad, plus, trail);
    } else if AllOf(pad, ' ') {
      WhiteBehind(pad, plus, b, trail);
    } else {
      WhiteBeforePlus(pad, plus, b, trail);
    }
  }

  /** A tab in front of a digit. */
  lemma {:induction false} TabInFront()
    ensures Read("\t5") == STRING && Read("5").value.Some?
  {
    var tab, five := "\t", "5";
    assert !AllOf(tab, ' ') by { assert tab[0] != ' '; }
    WhiteInFront(tab, five, "");
    assert tab + five + "" == "\t5";
    IntegerExact(false, five, CsvInt8);
    assert SignedText(false, five) == five;
    hide Read;
  }

  // ---- types of integers ----

  /** The greatest absolute value that a type holds; a double holds every one. */
  predicate Holds(t: DataType, n: nat) {
    match t
    case CsvInt8 => n <= INT8_MAX
    case CsvInt16 => n <= INT16_MAX
    case CsvInt32 => n <= INT32_MAX
    case CsvInt64 => n <= INT64_MAX
    case CsvDouble => true
    case _ => false
  }

  function Order(t: DataType): nat {
    match t
    case CsvNull => 0
    case CsvString => 1
    case CsvInt8 => 2
    case CsvInt16 => 3
    case CsvInt32 => 4
    case CsvInt64 => 5
    case CsvDouble => 6
  }

  lemma {:induction false} SmallestType(n: nat, t: DataType)
    ensures Holds(IntegralType(n), n) && (Order(t) < Order(IntegralType(n)) ==> !Holds(t, n))
  {
  }

  /** An integer numeral gets its value and the smallest type that holds the absolute value. */
  lemma {:induction false} IntegerExact(negative: bool, digits: string, t: DataType)
    requires digits != "" && AllDigits(digits)
    ensures var r := Read(SignedText(negative, digits));
      && r.value == Some(Signed(negative, NatValue(digits) as real))
      && Holds(r.dtype, NatValue(digits)) && (Order(t) < Order(r.dtype) ==> !Holds(t, NatValue(digits)))
  {
    var n := Number(negative, digits, false, "", None);
    var s := SignedText(negative, digits);
    assert NumberText(n) == s + [] == s;
    assert digits + "" == digits;
    NumeralExact(n, "", "", "");
    assert "" + "" + s + "" == s;
    assert FractionValue("") == 0.0;
    hide Read, NatValue, FractionValue, NumberText, Order, Holds, IntegralType;
    SmallestType(NatValue(digits), t);
  }
}
