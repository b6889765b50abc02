/**
 The broken-down timedelta (class time_storage): the mixed-radix split of a number of seconds, the
 text printed for it, and the round trip through the scanner.
 */
module TimeStorage {
  import opened Text
  import opened Decimal
  import opened TimeScan
  import opened TimePhrase

  const SECONDS_PER_DAY: nat := 86400

  /** Values of an `unsigned`, the type that holds the days. */
  const UNSIGNED: nat := 0x1_0000_0000

  /** `str`: days only when there are any, microseconds (unpadded) only when there are any. */
  function TimeText(days: nat, h: nat, m: nat, s: nat, micros: nat): string
    requires h < 24 && m < 60 && s < 60
  {
    (if days == 0 then "" else NatText(days) + (if days == 1 then " day, " else " days, "))
    + NatText(h) + ":" + Pad2(m) + ":" + Pad2(s) + (if micros == 0 then "" else "." + NatText(micros))
  }

  /** `output_resolution` */
  datatype Resolution = Micro | Nano

  /** The microseconds shown: the nearest number of them, or the whole ones when nanoseconds follow. */
  function MicrosOf(rest: real, r: Resolution): int {
    if r == Micro then RoundHalfEven(rest * 1000000.0) else (rest * 1000000.0).Floor
  }

  /** The nanoseconds shown beside them. */
  function NanosOf(rest: real, r: Resolution): int {
    if r == Micro then 0 else RoundHalfEven((rest - MicrosOf(rest, r) as real / 1000000.0) * 1000000000.0)
  }

  /** What is shown of the fraction of a second is the fraction, to half of the resolution's unit. */
  lemma {:induction false} FractionShown(rest: real, r: Resolution)
    requires rest >= 0.0
    ensures MicrosOf(rest, r) >= 0 && NanosOf(rest, r) >= 0
    ensures var shown := MicrosOf(rest, r) as real / 1000000.0 + NanosOf(rest, r) as real / 1000000000.0;
      var half := if r == Micro then 0.0000005 else 0.0000000005;
      rest - half <= shown <= rest + half
  {
  }

  /** The text of a whole number of seconds. */
  function WholeText(n: nat): string {
    TimeText(n / SECONDS_PER_DAY % UNSIGNED, n % 86400 / 3600, n % 3600 / 60, n % 60, 0)
  }

  /** Flooring to a unit of whole seconds is dividing the whole seconds. */
  lemma {:induction false} FloorDiv(x: real)
    ensures (x / 86400.0).Floor == x.Floor / 86400
    ensures (x / 3600.0).Floor == x.Floor / 3600
    ensures (x / 60.0).Floor == x.Floor / 60
  {
  }

  lemma {:induction false} RadixSplit(n: nat)
    ensures n == n / 86400 * 86400 + n % 86400
    ensures n % 86400 == n % 86400 / 3600 * 3600 + n % 3600 && n % 86400 / 3600 < 24
    ensures n % 3600 == n % 3600 / 60 * 60 + n % 60 && n % 3600 / 60 < 60
  {
    assert n / 3600 == 24 * (n / 86400) + n % 86400 / 3600;
    assert n / 60 == 60 * (n / 3600) + n % 3600 / 60;
  }

  class Storage {
    var rest: real
    var days: nat
    var clockHours: nat
    var clockMinutes: nat
    var clockSeconds: nat
    var microseconds: nat
    var nanoseconds: nat

    constructor () {
      rest, days, clockHours, clockMinutes, clockSeconds := 0.0, 0, 0, 0, 0;
      microseconds, nanoseconds := 0, 0;
    }

    /** `fill_parts`: whole days, hours, minutes and seconds, each taken off before the next. */
    method FillParts(seconds: real)
      requires seconds >= 0.0
      modifies this
      ensures var n := seconds.Floor;
        && days == n / SECONDS_PER_DAY % UNSIGNED && clockHours == n % 86400 / 3600 < 24
        && clockMinutes == n % 3600 / 60 < 60 && clockSeconds == n % 60
        && rest == seconds - n as real && 0.0 <= rest < 1.0
    {
      ghost var n := seconds.Floor;
      RadixSplit(n);
      var data := seconds;
      FloorDiv(data);
      var d := (data / 86400.0).Floor;
      days := d % UNSIGNED;
      data := data - (d * 86400) as real;
      assert data.Floor == n % 86400;
      FloorDiv(data);
      clockHours := (data / 3600.0).Floor;
      data := data - (clockHours * 3600) as real;
      assert data.Floor == n % 3600;
      FloorDiv(data);
      clockMinutes := (data / 60.0).Floor;
      data := data - (clockMinutes * 60) as real;
      assert data.Floor == n % 60;
      clockSeconds := data.Floor;
      rest := data - data.Floor as real;
    }

    /** `str` at either resolution. */
    method Str(r: Resolution) returns (text: string)
      requires clockHours < 24 && clockMinutes < 60 && clockSeconds < 60 && rest >= 0.0
      modifies this`microseconds, this`nanoseconds
      ensures microseconds == MicrosOf(rest, r) && nanoseconds == NanosOf(rest, r)
      ensures text == TimeText(days, clockHours, clockMinutes, clockSeconds, microseconds)
                      + if nanoseconds == 0 then "" else "," + NatText(nanoseconds) + "ns"
    {
      FractionShown(rest, r);
      microseconds := MicrosOf(rest, r);
      nanoseconds := NanosOf(rest, r);
      text := "";
      if days != 0 {
        text := NatText(days) + (if days == 1 then " day, " else " days, ");
      }
      text := text + NatText(clockHours) + ":" + Pad2(clockMinutes) + ":" + Pad2(clockSeconds);
      if microseconds != 0 {
        text := text + ("." + NatText(microseconds));
      }
      if nanoseconds != 0 {
        text := text + ("," + NatText(nanoseconds) + "ns");
      }
    }
  }

  /** The greatest number of whole seconds, a 64-bit count. */
  const SECONDS_MAX: nat := 0x7fff_ffff_ffff_ffff

  /** `operator long double`: seconds, whole microseconds of the rest, and rounded nanoseconds of what is left.
      The conversion of more seconds than their count holds is undefined. */
  function AsSeconds(total: real): Option<real> {
    var rest := total - total.Floor as real;
    var micros := (rest * 1000000.0).Floor;
    var nanos := RoundHalfEven((rest - micros as real / 1000000.0) * 1000000000.0);
    if total.Floor <= SECONDS_MAX
    then Some(total.Floor as real + micros as real / 1000000.0 + nanos as real / 1000000000.0)
    else None
  }

  /** The value handed to callers is the sum read, to the nearest nanosecond, for every sum whose seconds fit. */
  lemma {:induction false} AsSecondsNearest(total: real)
    ensures AsSeconds(total).Some? <==> total < 9223372036854775808.0
    ensures AsSeconds(total).Some? ==> -0.0000000005 <= AsSeconds(total).value - total <= 0.0000000005
  {
  }

  // ---- the round trip ----

  lemma {:induction false} NotFound(s: string, x: char, i: nat)
    requires i <= |s| && forall k :: i <= k < |s| ==> s[k] != x
    ensures Find(s, x, i) == |s|
    decreases |s| - i
  {
    if i < |s| { NotFound(s, x, i + 1); }
  }

  lemma {:induction false} WholeNumeral(s: string)
    requires AllDigits(s)
    ensures NumeralValue(s) == NatValue(s) as real
  {
    NotFound(s, '.', 0);
  }

  lemma {:induction false} DayWords(word: string)
    requires word == "day" || word == "days"
    ensures GroupOf(0, word) == 1 && Letters(word + ",") == word && CommasAfter(0, word + ",") == 1
  {
    assert word in SYMBOLS[1];
    GroupIsFirst(0, word, 1);
    assert (word + ",")[..|word|] == word;
    LettersOf(word);
  }

  lemma {:induction false} LettersOf(word: string)
    requires forall k :: 0 <= k < |word| ==> word[k] != ','
    ensures Letters(word) == word && CommasAfter(0, word) == 0
  {
    if word != "" { LettersOf(word[..|word| - 1]); }
  }

  function DayWord(days: nat): string { if days == 1 then "day" else "days" }

  function DayUnits(days: nat): seq<Unit> {
    if days == 0 then [] else [Unit(NatText(days), " ", DayWord(days) + ",", " ")]
  }

  /** The seconds as they are printed, with `u` microseconds. */
  function SecondsText(s: nat, u: nat): string
    requires s < 60
  {
    Pad2(s) + if u == 0 then "" else "." + NatText(u)
  }

  /** What the digits printed for the microseconds are worth behind the dot. */
  function Behind(u: nat): real { if u == 0 then 0.0 else u as real / TenTo(|NatText(u)|) }

  function Clock(h: nat, m: nat, s: nat, u: nat): seq<string>
    requires m < 60 && s < 60
  {
    [NatText(h), Pad2(m), SecondsText(s, u)]
  }

  lemma {:induction false} SecondsOk(s: nat, u: nat)
    requires s < 60
    ensures LastFieldOk(SecondsText(s, u))
    ensures NumeralValue(SecondsText(s, u)) == s as real + Behind(u)
  {
    var t := SecondsText(s, u);
    Pad2Value(s);
    if u == 0 {
      assert t == Pad2(s);
      DigitsAreNumeral(t);
      NotFound(t, '.', 0);
      WholeNumeral(t);
    } else {
      FractionText(Pad2(s), NatText(u));
      NatTextValue(u);
      Quotient(NatText(u));
      hide NatValue, FractionValue, TenTo, NatText, Pad2;
      assert t == Pad2(s) + (['.'] + NatText(u));
    }
  }

  lemma {:induction false} FractionText(whole: string, fraction: string)
    requires |whole| == 2 && AllDigits(whole) && fraction != "" && AllDigits(fraction)
    ensures var t := whole + (['.'] + fraction);
      && LastFieldOk(t) && NumeralValue(t) == NatValue(whole) as real + FractionValue(fraction)
  {
    var t := whole + (['.'] + fraction);
    assert t[..2] == whole && t[2] == '.' && t[3..] == fraction;
    assert forall i :: 0 <= i < |t| ==> (i == 2 && t[i] == '.') || (i != 2 && IsDigit(t[i]));
    FindIs(t, '.', 0, 2);
    hide NatValue, FractionValue;
  }

  lemma {:induction false} ClockIsText(h: nat, m: nat, s: nat, u: nat)
    requires m < 60 && s < 60
    ensures ClockOk(Clock(h, m, s, u), "")
    ensures ClockText(Clock(h, m, s, u), "") == NatText(h) + ":" + Pad2(m) + ":" + SecondsText(s, u)
  {
    var clock, last := Clock(h, m, s, u), SecondsText(s, u);
    SecondsOk(s, u);
    hide SecondsText, LastFieldOk;
    assert clock[1..] == [Pad2(m), last] && clock[1..][1..] == [last] && clock[1..][1..][1..] == [];
    assert FieldsOk([last], "");
    assert FieldsText([last], "") == ":" + last;
  }

  lemma {:induction false} DayUnitsOk(days: nat)
    ensures UnitsOk(DayUnits(days), 0, true)
  {
    if days > 0 {
      DayWords(DayWord(days));
      DigitsAreNumeral(NatText(days));
      hide NatText, GroupOf, Letters, CommasAfter;
      assert DayUnits(days)[1..] == [];
      OneSpace();
    }
  }

  lemma {:induction false} OneSpace()
    ensures Separator(" ") && CommaCount(" ") == 0
  {
    assert CommaCount(" "[1..]) == 0;
  }

  lemma {:induction false} DayPhrase(days: nat, tail: string)
    ensures Phrase(DayUnits(days), tail)
         == (if days == 0 then "" else NatText(days) + (if days == 1 then " day, " else " days, ")) + tail
  {
    if days > 0 {
      hide NatText;
      var u := DayUnits(days)[0];
      assert DayUnits(days)[1..] == [];
      assert Phrase(DayUnits(days), tail) == UnitText(u) + tail;
      assert " " + DayWord(days) + ", " == if days == 1 then " day, " else " days, ";
    }
  }

  /** A printed number of days and a clock as a text of the grammar. */
  function Printed(days: nat, h: nat, m: nat, s: nat, u: nat): Spelling
    requires m < 60 && s < 60
  {
    Spelling(DayUnits(days), Clock(h, m, s, u), "")
  }

  lemma {:induction false} TextIsPhrase(days: nat, h: nat, m: nat, s: nat, u: nat)
    requires h < 24 && m < 60 && s < 60
    ensures TimeText(days, h, m, s, u) == Printed(days, h, m, s, u).Text()
  {
    hide NatText, Pad2, ClockText, ClockOk, Phrase, DayUnits, Clock;
    ClockIsText(h, m, s, u);
    DayPhrase(days, ClockText(Clock(h, m, s, u), ""));
    var lead := if days == 0 then "" else NatText(days) + (if days == 1 then " day, " else " days, ");
    Regrouped(lead, NatText(h), Pad2(m), Pad2(s), if u == 0 then "" else "." + NatText(u));
  }

  lemma {:induction false} Regrouped(lead: string, h: string, m: string, s: string, tail: string)
    ensures lead + h + ":" + m + ":" + s + tail == lead + (h + ":" + m + ":" + (s + tail))
  {
  }

  lemma {:induction false} NoHours(days: nat, h: nat, m: nat, s: nat, u: nat)
    requires h < 24 && m < 60 && s < 60
    ensures 'h' !in TimeText(days, h, m, s, u)
  {
  }

  /** What the scanner makes of a printed number of days and a clock. */
  lemma {:induction false} TextValue(days: nat, h: nat, m: nat, s: nat, u: nat)
    requires h < 24 && m < 60 && s < 60
    ensures Parse(TimeText(days, h, m, s, u)) == Some((days * 86400 + h * 3600 + m * 60 + s) as real + Behind(u))
  {
    hide Behind, TimeText, Phrase, ClockText, DayUnits;
    TextIsPhrase(days, h, m, s, u);
    DayUnitsOk(days);
    ClockIsText(h, m, s, u);
    NoHours(days, h, m, s, u);
    PhraseAccepted(Printed(days, h, m, s, u));
    AddendsValue(days, h, m, s, u);
  }

  lemma {:induction false} ClockAddends(h: nat, m: nat, s: nat, u: nat)
    requires m < 60 && s < 60
    ensures FieldAddends(Clock(h, m, s, u), ClockWeights(2))
         == [Addend(NatText(h), 3600), Addend(Pad2(m), 60), Addend(SecondsText(s, u), 1)]
  {
    var clock, w, last := Clock(h, m, s, u), ClockWeights(2), SecondsText(s, u);
    hide SecondsText;
    assert w == [3600, 60, 1];
    assert clock[1..] == [Pad2(m), last] && w[1..] == [60, 1];
    assert clock[1..][1..] == [last] && w[1..][1..] == [1];
    assert FieldAddends([last], [1]) == [Addend(last, 1)];
  }

  lemma {:induction false} DayAddends(days: nat)
    ensures Total(UnitAddends(DayUnits(days))) == (days * 86400) as real
  {
    if days > 0 {
      DayWords(DayWord(days));
      FieldValue(days);
      var a := Addend(NatText(days), 86400);
      assert DayUnits(days)[1..] == [];
      assert UnitAddends(DayUnits(days)) == [] + [a];
      TotalSnoc([], a);
    }
  }

  lemma {:induction false} FieldTotals(before: seq<Addend>, h: nat, m: nat, s: nat, u: nat)
    requires m < 60 && s < 60
    ensures Total(before + [Addend(NatText(h), 3600), Addend(Pad2(m), 60), Addend(SecondsText(s, u), 1)])
         == Total(before) + (h * 3600 + m * 60 + s) as real + Behind(u)
  {
    hide NumeralValue, NatText, Pad2, SecondsText, Behind;
    var a, b, c := Addend(NatText(h), 3600), Addend(Pad2(m), 60), Addend(SecondsText(s, u), 1);
    FieldValue(h);
    PadValue(m);
    SecondsOk(s, u);
    TotalSnoc(before, a);
    TotalSnoc(before + [a], b);
    TotalSnoc(before + [a] + [b], c);
    assert before + [a, b, c] == before + [a] + [b] + [c];
  }

  lemma {:induction false} AddendsValue(days: nat, h: nat, m: nat, s: nat, u: nat)
    requires h < 24 && m < 60 && s < 60
    ensures Total(Printed(days, h, m, s, u).Addends())
         == (days * 86400 + h * 3600 + m * 60 + s) as real + Behind(u)
  {
    hide Behind, SecondsText;
    ClockAddends(h, m, s, u);
    DayAddends(days);
    FieldTotals(UnitAddends(DayUnits(days)), h, m, s, u);
  }

  lemma {:induction false} TotalSnoc(xs: seq<Addend>, x: Addend)
    ensures Total(xs + [x]) == Total(xs) + NumeralValue(x.num) * x.weight as real
  {
    hide NumeralValue;
    assert (xs + [x])[..|xs|] == xs;
  }

  lemma {:induction false} FieldValue(n: nat)
    ensures NumeralValue(NatText(n)) == n as real
  {
    NatTextValue(n);
    WholeNumeral(NatText(n));
  }

  lemma {:induction false} PadValue(n: nat)
    requires n < 100
    ensures NumeralValue(Pad2(n)) == n as real
  {
    Pad2Value(n);
    WholeNumeral(Pad2(n));
  }

  /** The seconds with the days reduced modulo the range of an `unsigned`. */
  function Reduced(n: nat): nat { n / SECONDS_PER_DAY % UNSIGNED * 86400 + n % 86400 }

  lemma {:induction false} NoMicros(n: nat)
    ensures MicroText(n, 0) == WholeText(n) && Behind(0) == 0.0
  {
    hide TimeText;
  }

  /** Whatever whole number of seconds is printed, its text is accepted, and what it means is that
      number with the days reduced modulo the range of an `unsigned`. */
  lemma {:induction false} PrintedValue(n: nat)
    ensures Parse(WholeText(n)) == Some((n / 86400 % 4294967296 * 86400 + n % 86400) as real)
  {
    MicroPrinted(n, 0);
    hide Parse, TimeText, MicroText, WholeText, Behind, Reduced;
    NoMicros(n);
  }

  lemma {:induction false} ReducedIs(n: nat)
    ensures Reduced(n) == n / 86400 % 4294967296 * 86400 + n % 86400
  {
  }

  lemma {:induction false} WholeAsSeconds(n: nat)
    requires n <= SECONDS_MAX
    ensures AsSeconds(n as real) == Some(n as real)
  {
  }

  /** Printing and parsing give a whole number of seconds back exactly when its days fit an `unsigned`. */
  lemma {:induction false} RoundTrip(n: nat)
    ensures Parse(WholeText(n)).Some?
    ensures AsSeconds(Parse(WholeText(n)).value) == Some(n as real) <==> n / 86400 < 4294967296
  {
    hide Parse, WholeText, AsSeconds, Reduced;
    ReducedIs(n);
    PrintedValue(n);
    WholeKept(n);
    WholeAsSeconds(Reduced(n));
  }

  // ---- fractions of a second ----

  /** The text of `n` whole seconds and `u` microseconds. */
  function MicroText(n: nat, u: nat): string {
    TimeText(n / SECONDS_PER_DAY % UNSIGNED, n % 86400 / 3600, n % 3600 / 60, n % 60, u)
  }

  lemma {:induction false} DigitsOf(u: nat)
    ensures var k := |NatText(u)|; k >= 1 && u < Pow10(k) && (u > 0 ==> Pow10(k - 1) <= u)
  {
    if u >= 10 { DigitsOf(u / 10); } else { assert Pow10(1) == 10 && Pow10(0) == 1; }
  }

  lemma {:induction false} PowersOfTen()
    ensures Pow10(0) == 1 && Pow10(1) == 10 && Pow10(2) == 100 && Pow10(3) == 1000 && Pow10(4) == 10000
    ensures Pow10(5) == 100000 && Pow10(6) == 1000000 && Pow10(7) == 10000000
  {
    assert Pow10(4) == 10 * Pow10(3);
  }

  lemma {:induction false} PowersGrow(j: nat, k: nat)
    requires j <= k
    ensures Pow10(j) <= Pow10(k)
    decreases k
  {
    if j < k { PowersGrow(j, k - 1); }
  }

  /** The digits behind the dot are worth the microseconds exactly when there are six of them, or none. */
  lemma {:induction false} BehindIs(u: nat)
    requires u <= 1000000
    ensures Behind(u) * 1000000.0 == (Behind(u) * 1000000.0).Floor as real && 0.0 <= Behind(u) < 1.0
    ensures Behind(u) == u as real / 1000000.0 <==> u == 0 || 100000 <= u < 1000000
  {
    if u > 0 {
      var k := |NatText(u)|;
      DigitsOf(u);
      PowersOfTen();
      if k > 7 { PowersGrow(7, k - 1); }
      hide Pow10, NatText;
      DigitCases(u, k);
    }
  }

  lemma {:induction false} Tenfold(u: nat, k: nat, p: nat)
    requires 1 <= k <= 6 && p == Pow10(k)
    ensures u as real / p as real * 1000000.0 == (u * Pow10(6 - k)) as real
  {
    PowersOfTen();
    var x := u as real;
    if k <= 3 {
      assert k == 1 ==> x / 10.0 * 1000000.0 == 100000.0 * x;
      assert k == 2 ==> x / 100.0 * 1000000.0 == 10000.0 * x;
      assert k == 3 ==> x / 1000.0 * 1000000.0 == 1000.0 * x;
    } else {
      assert k == 4 ==> x / 10000.0 * 1000000.0 == 100.0 * x;
      assert k == 5 ==> x / 100000.0 * 1000000.0 == 10.0 * x;
      assert k == 6 ==> x / 1000000.0 * 1000000.0 == x;
    }
    hide Pow10;
  }

  lemma {:induction false} PlacesLeft(u: nat, q: nat)
    requires u > 0 && q >= 1
    ensures u * q >= u && (u * q == u <==> q == 1)
  {
    assert u * q == u + u * (q - 1);
  }

  lemma {:induction false} DigitCases(u: nat, k: nat)
    requires 0 < u <= 1000000 && 1 <= k <= 7 && Pow10(k - 1) <= u < Pow10(k)
    ensures var b := u as real / Pow10(k) as real;
      && b * 1000000.0 == (b * 1000000.0).Floor as real && 0.0 <= b < 1.0
      && (b == u as real / 1000000.0 <==> 100000 <= u < 1000000)
  {
    hide Pow10;
    PowersOfTen();
    if k == 7 {
      OneSecond(u, Pow10(k));
    } else {
      var n := Spread(u, k);
      SixPlaces(u as real / Pow10(k) as real, u, n);
    }
  }

  /** The microseconds that the digits stand for behind the dot. */
  lemma {:induction false} Spread(u: nat, k: nat) returns (n: nat)
    requires 0 < u && 1 <= k <= 6 && Pow10(k - 1) <= u < Pow10(k)
    ensures var b := u as real / Pow10(k) as real; b * 1000000.0 == n as real && 0.0 <= b < 1.0
    ensures n == u <==> 100000 <= u < 1000000
  {
    hide Pow10;
    Tenfold(u, k, Pow10(k));
    Below(u, Pow10(k));
    SixDigits(u, k);
    n := u * Pow10(6 - k);
  }

  lemma {:induction false} OneSecond(u: nat, p: nat)
    requires u == 1000000 && p == 10000000
    ensures u as real / p as real == 0.1
  {
  }

  lemma {:induction false} SixDigits(u: nat, k: nat)
    requires 0 < u && 1 <= k <= 6 && Pow10(k - 1) <= u < Pow10(k)
    ensures u * Pow10(6 - k) == u <==> 100000 <= u < 1000000
  {
    PowersOfTen();
    PlacesLeft(u, Pow10(6 - k));
    if k < 6 { PowersGrow(k, 5); }
    PowersGrow(1, 6 - k + 1);
    assert Pow10(6 - k) == 1 <==> k == 6;
    hide Pow10;
  }

  lemma {:induction false} SixPlaces(b: real, u: nat, n: nat)
    requires b * 1000000.0 == n as real
    ensures (b * 1000000.0).Floor == n && (b == u as real / 1000000.0 <==> n == u)
  {
  }

  lemma {:induction false} Below(u: nat, p: nat)
    requires u < p
    ensures 0.0 <= u as real / p as real < 1.0
  {
    var b := u as real / p as real;
    assert b * p as real == u as real;
    assert (1.0 - b) * p as real == p as real - u as real;
  }

  /** A number of whole microseconds is handed out as it is. */
  lemma {:induction false} MicrosAsSeconds(n: nat, x: real)
    requires 0.0 <= x < 1.0 && x * 1000000.0 == (x * 1000000.0).Floor as real && n <= SECONDS_MAX
    ensures AsSeconds(n as real + x) == Some(n as real + x)
  {
    var total := n as real + x;
    assert total.Floor == n;
  }

  lemma {:induction false} MicroPrinted(n: nat, u: nat)
    ensures Parse(MicroText(n, u)) == Some(Reduced(n) as real + Behind(u))
  {
    RadixSplit(n);
    hide Behind, Parse, TimeText;
    TextValue(n / SECONDS_PER_DAY % UNSIGNED, n % 86400 / 3600, n % 3600 / 60, n % 60, u);
  }

  /** With microseconds, a number of seconds comes back exactly when its days fit an `unsigned` and there are no
      microseconds or six digits of them, since they are printed without leading zeros. */
  lemma {:induction false} MicroRoundTrip(n: nat, u: nat)
    requires u <= 1000000
    ensures Parse(MicroText(n, u)).Some?
    ensures AsSeconds(Parse(MicroText(n, u)).value) == Some(n as real + u as real / 1000000.0)
      <==> n / 86400 < 4294967296 && (u == 0 || 100000 <= u < 1000000)
  {
    hide Parse, MicroText, AsSeconds, Behind, Reduced;
    MicroPrinted(n, u);
    BehindIs(u);
    WholeKept(n);
    MicrosAsSeconds(Reduced(n), Behind(u));
    MicroKept(n, Reduced(n), u);
  }

  lemma {:induction false} MicroKept(n: nat, whole: nat, u: nat)
    requires whole % 86400 == n % 86400 && whole <= n && u <= 1000000
    ensures whole as real + Behind(u) == n as real + u as real / 1000000.0
      <==> whole == n && (u == 0 || 100000 <= u < 1000000)
  {
    BehindIs(u);
    hide Behind;
    Fractions(n, whole, Behind(u), u);
  }

  lemma {:induction false} WholeKept(n: nat)
    ensures Reduced(n) <= SECONDS_MAX
    ensures Reduced(n) % 86400 == n % 86400 && Reduced(n) <= n && (Reduced(n) == n <==> n / SECONDS_PER_DAY < UNSIGNED)
  {
  }

  /** Two sums of whole seconds and a fraction agree exactly when their parts do, a whole day apart at most. */
  lemma {:induction false} Fractions(n: nat, whole: nat, x: real, u: nat)
    requires whole % 86400 == n % 86400 && whole <= n && 0.0 <= x < 1.0 && u <= 1000000
    ensures whole as real + x == n as real + u as real / 1000000.0 <==> whole == n && x == u as real / 1000000.0
  {
    var y := u as real / 1000000.0;
    assert 0.0 <= y <= 1.0;
  }

  /** The printed text, spelled out: no day, one day, and more of them. */
  lemma {:induction false} TextSpelled(days: nat, h: nat, m: nat, s: nat, u: nat)
    requires h < 24 && m < 60 && s < 60
    ensures var lead := if days == 0 then "" else if days == 1 then "1 day, " else NatText(days) + " days, ";
      TimeText(days, h, m, s, u)
      == lead + (NatText(h) + ":" + Pad2(m) + ":" + Pad2(s)) + (if u == 0 then "" else "." + NatText(u))
  {
    OneText();
    hide NatText, Pad2;
    var lead := if days == 0 then "" else if days == 1 then "1 day, " else NatText(days) + " days, ";
    Joined(lead, NatText(h), Pad2(m), Pad2(s));
    assert days == 1 ==> NatText(days) + " day, " == "1 day, ";
    assert TimeText(days, h, m, s, u)
        == lead + NatText(h) + ":" + Pad2(m) + ":" + Pad2(s) + (if u == 0 then "" else "." + NatText(u));
  }

  lemma {:induction false} OneText()
    ensures NatText(1) == "1"
  {
  }

  lemma {:induction false} Joined(lead: string, h: string, m: string, s: string)
    ensures lead + h + ":" + m + ":" + s == lead + (h + ":" + m + ":" + s)
  {
  }
}
