/**
 Column typing told from the texts of the cells: which texts are nulls, flags and numbers, and what columns of
 them are.
 */
module TypifyTexts {
  import opened Text
  import opened Numeral
  import opened NumeralMeaning
  import opened NumeralTexts
  import opened Comparators
  import opened Typify
  import TypifyRuns
  import Precision

  // ---- texts ----

  /** Blanks, or signs and dots alone. */
  ghost predicate NoContent(t: string) { AllOf(t, ' ') || exists x: NullText :: x.Ok() && x.Text() == t }

  /** `x` is a numeral written as `t`. */
  ghost predicate Writes(x: Written, t: string) { x.Ok() && x.Text() == t }

  ghost predicate IsNumeral(t: string) { exists x: Written :: Writes(x, t) }

  /** The first character that is no blank is a zero. */
  ghost predicate ZeroFirst(t: string) {
    exists i :: 0 <= i < |t| && t[i] == '0' && forall k :: 0 <= k < i ==> t[k] == ' '
  }

  /** The words in capitals for what is no number. */
  predicate NoNumber(w: string) { w in ["NAN", "INF", "INFINITY", "+INF", "-INF", "+INFINITY", "-INFINITY"] }

  /** A cell with a number: a numeral, unless it starts with a zero and that makes a text, or one of the words. */
  ghost predicate IsNumber(c: Content, s: Settings) {
    if IsNumeral(c.text) then !(s.noLeadingZeroes && ZeroFirst(c.text)) else !NoContent(c.text) && NoNumber(c.upper)
  }

  ghost predicate IsText(c: Content, s: Settings) { !NoContent(c.text) && !IsNumber(c, s) }

  lemma {:induction false} NumericRead(t: string)
    ensures IsNumeric(Read(t).dtype) <==> Read(t).value.Some?
    ensures Read(t).dtype == CsvNull <==> Read(t) == NULL
  {
    hide SkipChar, TrimEnd, Numeral.Plain, Digits, MantissaValue, Exponent, Decimal.Times, Decimal.TenPower, NatValue;
    hide AfterPlus, ExponentStart;
  }

  lemma {:induction false} NumeralRead(t: string)
    ensures IsNumeral(t) <==> Read(t).value.Some?
    ensures NoContent(t) <==> Read(t) == NULL
  {
    hide Read, Denoted;
    NullExactly(t);
    ValueExactly(t, Read(t));
    if IsNumeral(t) {
      var x: Written :| Writes(x, t);
      ValueExactly(t, Denoted(x.InFront()));
      ReadWritten(x);
    }
    if Read(t).value.Some? {
      var x: Written :| x.Ok() && x.Text() == t;
      assert Writes(x, t);
    }
  }

  lemma {:induction false} ZeroFound(t: string)
    ensures var first := SkipChar(t, ' ', 0); ZeroFirst(t) <==> first < |t| && t[first] == '0'
  {
    SkipCharAll(t, ' ', 0);
    hide SkipChar;
    var first := SkipChar(t, ' ', 0);
    if ZeroFirst(t) {
      var i :| 0 <= i < |t| && t[i] == '0' && forall k :: 0 <= k < i ==> t[k] == ' ';
      assert first == i;
    }
  }

  /** What a cell is detected as. */
  lemma {:induction false} DetectedAs(c: Content, s: Settings)
    ensures Detected(c, s).dtype == CsvNull <==> NoContent(c.text)
    ensures IsNumeric(Detected(c, s).dtype) <==> IsNumber(c, s)
    ensures Detected(c, s).dtype == CsvString <==> IsText(c, s)
  {
    NumericRead(c.text);
    NumeralRead(c.text);
    ZeroFound(c.text);
    hide Read, SkipChar, IsNumeral, NoContent, ZeroFirst;
  }

  // ---- nulls and flags ----

  /** A null: no content, or a text that is one of the words for it or of the given ones. */
  ghost predicate IsNullText(c: Content, s: Settings) {
    && !s.blanks
    && (NoContent(c.text)
        || (IsText(c, s) && (c.upper in ["NA", "N/A", "NONE", "NULL", ".", ","] || c.upper in s.nullValues)))
  }

  lemma {:induction false} NullishExactly(c: Content, s: Settings)
    ensures Nullish(c, s) <==> IsNullText(c, s)
  {
    DetectedAs(c, s);
    hide Detected, NoContent, IsText;
  }

  /** One of the words for a truth value. */
  ghost predicate IsWordText(c: Content, s: Settings) {
    IsText(c, s) && c.upper in ["T", "F", "TRUE", "FALSE", "\"1\"", "\"0\"", "Y", "N", "YES", "NO"]
  }

  /** The numeral is an integer, 0 with any sign or 1 with none. */
  ghost predicate ZeroOrOne(x: Written) {
    !x.dotted && x.tail.None? && (NatValue(x.whole) == 0 || (NatValue(x.whole) == 1 && x.sign.None?))
  }

  ghost predicate IsFlagText(c: Content, s: Settings) {
    IsWordText(c, s) || (IsNumber(c, s) && exists x: Written :: Writes(x, c.text) && ZeroOrOne(x))
  }

  lemma {:induction false} WordExactly(c: Content, s: Settings)
    ensures IsWord(c, s) <==> IsWordText(c, s)
  {
    DetectedAs(c, s);
    hide Detected, IsText;
  }

  lemma {:induction false} SmallInteger(x: Written)
    requires x.Ok()
    ensures var r := Denoted(x.InFront());
      r.dtype == CsvInt8 && IsZeroOrOne(r.value) <==> ZeroOrOne(x)
  {
    hide NatValue, Decimal.Times, Decimal.TenPower, AllOf, AllPad, AllDigits, Tail.Ok;
    assert x.fraction == "" ==> FractionValue(x.fraction) == 0.0;
  }

  lemma {:induction false} NumberUnchanged(c: Content, s: Settings)
    requires IsNumber(c, s)
    ensures if IsNumeral(c.text) then Detected(c, s) == Read(c.text) else Detected(c, s).dtype == CsvDouble
  {
    NumericRead(c.text);
    NumeralRead(c.text);
    ZeroFound(c.text);
    hide Read, SkipChar, IsNumeral, NoContent, ZeroFirst;
  }

  lemma {:induction false} FlagExactly(c: Content, s: Settings)
    ensures IsFlag(c, s) <==> IsFlagText(c, s)
  {
    DetectedAs(c, s);
    WordExactly(c, s);
    hide Detected, IsWord, IsWordText, IsNumber, IsText, IsZeroOrOne, ZeroOrOne, Read, Denoted, Written.Ok;
    if IsNumber(c, s) {
      NumberUnchanged(c, s);
      forall x: Written | Writes(x, c.text)
        ensures ZeroOrOne(x) <==> Read(c.text).dtype == CsvInt8 && IsZeroOrOne(Read(c.text).value)
      {
        ReadWritten(x);
        SmallInteger(x);
      }
    }
  }

  // ---- columns ----

  /** The passes, in their order. */
  const PASSES: seq<Kind> := [Boolean, Timedelta, Datetime, Day, Kind.Number, Plain]

  /** Cell `i` is accepted by the pass for a type: a date is not tried where there is no date format and the
      datetime pass has come so far, and a word counts as a number where the boolean pass has come so far. */
  ghost predicate Fits(k: Kind, contents: seq<Content>, i: nat, s: Settings)
    requires i < |contents|
  {
    var c := contents[i];
    || IsNullText(c, s) || k == Plain
    || (!s.noInference
        && match k
          case Boolean => IsFlagText(c, s)
          case Timedelta => c.timedelta
          case Datetime => c.datetime
          case Day =>
            c.date
            && (!s.noDateFormat || exists j :: 0 <= j < i && !IsNullText(contents[j], s) && !contents[j].datetime)
          case Number =>
            IsNumber(c, s)
            || (IsWordText(c, s) && forall j :: 0 <= j < i ==> IsNullText(contents[j], s) || IsFlagText(contents[j], s))
          case Plain => true)
  }

  ghost predicate AllFit(k: Kind, contents: seq<Content>, s: Settings) {
    forall i :: 0 <= i < |contents| ==> Fits(k, contents, i, s)
  }

  lemma {:induction false} FitsExactly(k: Kind, contents: seq<Content>, i: nat, s: Settings)
    requires i < |contents|
    ensures Passes(k, contents, i, s) <==> Fits(k, contents, i, s)
  {
    hide Nullish, IsNullText, IsFlag, IsFlagText, IsWord, IsWordText, Detected, IsNumber, IsText;
    forall j | 0 <= j <= i
      ensures Nullish(contents[j], s) <==> IsNullText(contents[j], s)
      ensures IsFlag(contents[j], s) <==> IsFlagText(contents[j], s)
    {
      NullishExactly(contents[j], s);
      FlagExactly(contents[j], s);
    }
    WordExactly(contents[i], s);
    DetectedAs(contents[i], s);
  }

  lemma {:induction false} AllExactly(k: Kind, contents: seq<Content>, s: Settings)
    ensures AllPass(k, contents, s) <==> AllFit(k, contents, s)
  {
    hide Passes, Fits;
    forall i | 0 <= i < |contents|
      ensures Passes(k, contents, i, s) <==> Fits(k, contents, i, s)
    {
      FitsExactly(k, contents, i, s);
    }
  }

  /** The decimals counted of a number. */
  function Decimals(c: Content): nat {
    var r := Read(c.text);
    if r.dtype == CsvDouble && r.value.Some? then Precision.Precision(r.value.value) else 0
  }

  lemma {:induction false} MostDecimals(contents: seq<Content>, n: nat, s: Settings)
    requires n <= |contents| && s.wantPrecisions
    ensures forall i :: 0 <= i < n && !IsNullText(contents[i], s) ==>
      Decimals(contents[i]) <= DecimalsUpTo(contents, n, s)
    ensures DecimalsUpTo(contents, n, s) == 0
      || exists i :: 0 <= i < n && !IsNullText(contents[i], s) && Decimals(contents[i]) == DecimalsUpTo(contents, n, s)
  {
    hide Nullish, IsNullText, Read, Precision.Precision;
    if n > 0 {
      MostDecimals(contents, n - 1, s);
      NullishExactly(contents[n - 1], s);
    }
  }

  /** What a column is found to be, told from the texts of its cells: the first type that fits all; blanks if a
      cell is null; the most decimals of a cell that is not. */
  lemma {:induction false} FoundFromTexts(contents: seq<Content>, kind: Kind, blank: bool, prec: nat, s: Settings)
    requires TypifyRuns.Found(contents, kind, blank, prec, s)
    ensures AllFit(kind, contents, s)
    ensures forall n, m :: 0 <= n < m < 6 && PASSES[m] == kind ==> !AllFit(PASSES[n], contents, s)
    ensures blank <==> s.wantBlanks && exists i :: 0 <= i < |contents| && IsNullText(contents[i], s)
    ensures kind == Kind.Number && s.wantPrecisions ==>
      && (forall i :: 0 <= i < |contents| && !IsNullText(contents[i], s) ==> Decimals(contents[i]) <= prec)
      && (prec == 0 || exists i :: 0 <= i < |contents| && !IsNullText(contents[i], s) && Decimals(contents[i]) == prec)
  {
    hide Passes, Fits, AllFit, AllPass, IsNullText, Nullish, Decimals;
    forall k: Kind
      ensures AllPass(k, contents, s) <==> AllFit(k, contents, s)
    {
      AllExactly(k, contents, s);
    }
    forall i | 0 <= i < |contents|
      ensures Nullish(contents[i], s) <==> IsNullText(contents[i], s)
    {
      NullishExactly(contents[i], s);
    }
    if s.wantPrecisions { MostDecimals(contents, |contents|, s); }
    PassOrder();
  }

  lemma {:induction false} PassOrder()
    ensures forall n, m :: 0 <= n < m < 6 ==> Typify.Order(PASSES[n]) < Typify.Order(PASSES[m])
  {
  }

  /** A column of empty cells and numerals that are no times or dates, not all of them 0 or 1, is a number column,
      and has blanks exactly when a cell is empty. */
  lemma {:induction false} NumberColumn(contents: seq<Content>, kind: Kind, blank: bool, prec: nat, s: Settings, n: nat,
      x: Written)
    requires TypifyRuns.Found(contents, kind, blank, prec, s)
    requires !s.blanks && !s.noInference && !s.noLeadingZeroes && s.wantBlanks
    requires forall i :: 0 <= i < |contents| ==> AllOf(contents[i].text, ' ') || IsNumeral(contents[i].text)
    requires forall i :: 0 <= i < |contents| ==>
      !contents[i].timedelta && !contents[i].datetime && !contents[i].date
    requires n < |contents| && Writes(x, contents[n].text) && !ZeroOrOne(x)
    ensures kind == Kind.Number
    ensures blank <==> exists i :: 0 <= i < |contents| && AllOf(contents[i].text, ' ')
  {
    hide TypifyRuns.Found, AllFit, IsNullText, IsFlagText, IsNumeral, AllOf, ZeroOrOne;
    FoundFromTexts(contents, kind, blank, prec, s);
    forall i | 0 <= i < |contents|
      ensures if IsNumeral(contents[i].text) then !IsNullText(contents[i], s) && IsNumber(contents[i], s)
        else IsNullText(contents[i], s)
      ensures AllOf(contents[i].text, ' ') <==> IsNullText(contents[i], s)
    {
      EmptyOrNumeral(contents[i], s);
    }
    WrittenNumeral(x, contents[n].text);
    NoFlag(contents[n], x, s);
    NumbersFit(contents, n, s);
    NotPlain(contents, kind, s);
  }

  lemma {:induction false} WrittenNumeral(x: Written, t: string)
    requires Writes(x, t)
    ensures IsNumeral(t)
  {
  }

  lemma {:induction false} NotPlain(contents: seq<Content>, kind: Kind, s: Settings)
    requires AllFit(Kind.Number, contents, s)
    requires forall n, m :: 0 <= n < m < 6 && PASSES[m] == kind ==> !AllFit(PASSES[n], contents, s)
    ensures kind != Plain
  {
    hide AllFit;
    assert PASSES[4] == Kind.Number && PASSES[5] == Plain;
  }

  lemma {:induction false} EmptyOrNumeral(c: Content, s: Settings)
    requires !s.blanks && !s.noLeadingZeroes && (AllOf(c.text, ' ') || IsNumeral(c.text))
    ensures if IsNumeral(c.text) then !IsNullText(c, s) && IsNumber(c, s) else IsNullText(c, s)
    ensures AllOf(c.text, ' ') <==> IsNullText(c, s)
  {
    hide Read, IsNumeral, AllOf;
    NumeralRead(c.text);
    if AllOf(c.text, ' ') { NoBlankValue(c.text); }
  }

  /** A number that is written as no 0 or 1 is no flag. */
  lemma {:induction false} NoFlag(c: Content, x: Written, s: Settings)
    requires Writes(x, c.text) && !ZeroOrOne(x) && !s.noLeadingZeroes
    ensures !IsFlagText(c, s)
  {
    hide ZeroOrOne, Read, Denoted, Written.Ok;
    assert IsNumber(c, s) by { assert IsNumeral(c.text); }
    ReadWritten(x);
    SmallInteger(x);
    forall y: Written | Writes(y, c.text)
      ensures !ZeroOrOne(y)
    {
      ReadWritten(y);
      SmallInteger(y);
    }
  }

  lemma {:induction false} NumbersFit(contents: seq<Content>, n: nat, s: Settings)
    requires !s.noInference && n < |contents| && !IsNullText(contents[n], s) && !IsFlagText(contents[n], s)
    requires forall i :: 0 <= i < |contents| ==> IsNullText(contents[i], s) || IsNumber(contents[i], s)
    requires forall i :: 0 <= i < |contents| ==>
      !contents[i].timedelta && !contents[i].datetime && !contents[i].date
    ensures AllFit(Kind.Number, contents, s)
    ensures forall k :: k == Boolean || k == Timedelta || k == Datetime || k == Day ==> !AllFit(k, contents, s)
  {
    hide IsNullText, IsFlagText, IsNumber, IsWordText;
    forall k | k == Boolean || k == Timedelta || k == Datetime || k == Day
      ensures !AllFit(k, contents, s)
    {
      assert !Fits(k, contents, n, s);
    }
  }

  // ---- decimals ----

  lemma {:induction false} FractionBelow(s: string)
    requires AllDigits(s)
    ensures 0.0 <= FractionValue(s) < 1.0
    decreases |s|
  {
    if s != "" { FractionBelow(s[1..]); }
  }

  lemma {:induction false} ValueBelow(s: string)
    requires AllDigits(s)
    ensures NatValue(s) < Pow10(|s|)
  {
    if s != "" { ValueBelow(s[..|s| - 1]); }
  }

  lemma {:induction false} ValueAbove(s: string)
    requires s != "" && AllDigits(s) && s[0] != '0'
    ensures NatValue(s) >= Pow10(|s| - 1)
  {
    hide NatValue, Pow10;
    Decimal.LeadingDigit(s);
    OneAtLeast(DigitValue(s[0]), Pow10(|s| - 1));
  }

  lemma {:induction false} OneAtLeast(d: nat, p: nat)
    requires d >= 1
    ensures d * p >= p
  {
  }

  lemma {:induction false} LastNotZero(s: string)
    requires s != "" && AllDigits(s) && s[|s| - 1] != '0'
    ensures NatValue(s) % 10 != 0
  {
  }

  lemma {:induction false} PlainWhole(whole: string, fraction: string)
    requires whole != "" && AllDigits(whole) && (|whole| == 1 || whole[0] != '0') && AllDigits(fraction)
    ensures var x := NatValue(whole) as real + FractionValue(fraction);
      Precision.WholeDigits(x, x, |whole|)
  {
    FractionBelow(fraction);
    ValueBelow(whole);
    if |whole| > 1 { ValueAbove(whole); }
    hide NatValue, FractionValue, Pow10;
  }

  /** The digits behind the dot, the last of them no zero, are counted exactly when there are at most 14 in all. */
  lemma {:induction false} CellDecimals(c: Content, whole: string, fraction: string)
    requires c.text == whole + "." + fraction
    requires whole != "" && AllDigits(whole) && (|whole| == 1 || whole[0] != '0')
    requires fraction != "" && AllDigits(fraction) && fraction[|fraction| - 1] != '0'
    ensures Decimals(c) == |fraction| <==> |whole| + |fraction| <= 14
  {
    hide Read, NatValue, FractionValue, Pow10, Precision.Precision, Precision.Magnitude, Decimal.Times;
    var x := NatValue(whole) as real + FractionValue(fraction);
    PlainWhole(whole, fraction);
    Precision.MagnitudeIs(x, x, |whole|);
    Unscaled(whole, fraction);
    assert AllDigits(whole + fraction) && (whole + fraction)[|whole + fraction| - 1] == fraction[|fraction| - 1];
    LastNotZero(whole + fraction);
    Precision.PrecisionExact(x, NatValue(whole + fraction), |fraction|);
    PointDouble(whole, fraction);
  }

  lemma {:induction false} PointDouble(whole: string, fraction: string)
    requires AllDigits(whole) && AllDigits(fraction) && whole != ""
    ensures Read(whole + "." + fraction) == Reading(CsvDouble, Some(NatValue(whole) as real + FractionValue(fraction)))
  {
    var x := Written("", "", whole, true, fraction, None, None, "");
    hide Read, NatValue, FractionValue, AllDigits, Coefficient, Insert;
    UnsignedOk(x);
    UnsignedValue(x);
    PointText(x);
    ReadWritten(x);
  }

  /** A boolean word becomes 0 or 1. */
  lemma {:induction false} WordValue(e: Typed)
    requires e.dtype == Some(CsvString)
    requires e.content.upper in ["T", "F", "TRUE", "FALSE", "\"1\"", "\"0\"", "Y", "N", "YES", "NO"]
    ensures IsBoolean(e).1 && IsBoolean(e).0.dtype == Some(CsvInt8)
    ensures IsBoolean(e).0.value
      == Some(if e.content.upper in ["F", "FALSE", "\"0\"", "N", "NO"] then 0.0 else 1.0)
  {
  }
}
