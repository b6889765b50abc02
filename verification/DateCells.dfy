/**
 What date and date-time cells are read as, told from the texts alone: which digits stand where, the calendar's
 valid dates and the bounds of a time of day.
 */
module DateCells {
  import opened Text
  import opened Calendar
  import opened DateText
  import opened DateParse

  /** One to `max` digits. */
  predicate Number(s: string, max: nat) { 1 <= |s| <= max && AllDigits(s) }

  /** What follows a number does not go on with it. */
  predicate Ends(rest: string) { rest == "" || (!IsDigit(rest[0]) && rest[0] != '.') }

  // ---- numbers in a text ----

  lemma {:induction false} DecimalEndIs(t: string, i: nat, j: nat, max: nat)
    requires i <= j <= |t| && j - i <= max && forall k :: i <= k < j ==> IsDigit(t[k])
    requires j == |t| || (!IsDigit(t[j]) && t[j] != '.')
    ensures DecimalEnd(t, i, false, max) == j
    decreases j - i
  {
    if i < j { DecimalEndIs(t, i + 1, j, max - 1); }
  }

  /** A number that ends is read whole, by each of the readers. */
  lemma {:induction false} NumberRead(t: string, i: nat, s: string, rest: string, max: nat)
    requires i <= |t| && t[i..] == s + rest && Number(s, max) && Ends(rest) && max >= 2
    ensures i + |s| <= |t| && t[i + |s|..] == rest
    ensures ReadUnsigned(t, i, 1, max) == ReadSigned(t, i, 1, max) == Some((NatValue(s), i + |s|))
    ensures ReadSeconds(t, i, 1, max) == Some((NatValue(s), i + |s|))
  {
    var j := i + |s|;
    Piece(t, i, s, rest);
    assert t[i..j] == s;
    forall k | i <= k < j
      ensures IsDigit(t[k])
    {
      assert t[k] == t[i..j][k - i];
    }
    assert rest != "" ==> t[j] == rest[0];
    DigitsEndAt(t, i, j, max);
    DecimalEndIs(t, i, j, max);
    SplitValue(s, |s|);
    assert s[..|s|] == s;
    WholeRounds(NatValue(s));
    hide NatValue, NumeralValue, RoundHalfEven, DigitsEnd, DecimalEnd;
  }

  lemma {:induction false} WholeRounds(n: nat)
    ensures RoundHalfEven(n as real) == n
  {
  }

  /** The number that a command reads; a year may have four digits, all else two. */
  lemma {:induction false} FieldRead(t: string, fmt: string, k: nat, i: nat, f: Fields, s: string, rest: string)
    requires k + 1 < |fmt| && fmt[k] == '%' && IsField(fmt[k + 1]) && i <= |t| && t[i..] == s + rest && Ends(rest)
    requires Number(s, if fmt[k + 1] == 'Y' then 4 else 2)
    ensures i + |s| <= |t| && t[i + |s|..] == rest
    ensures Scan(t, fmt, k, i, f) ==
            var f' := SetField(fmt[k + 1], f, NatValue(s));
            if f'.None? then Failed else Scan(t, fmt, k + 2, i + |s|, f'.value)
  {
    hide Scan, ReadUnsigned, ReadSigned, ReadSeconds, SetField, NatValue, Number, Ends;
    NumberRead(t, i, s, rest, if fmt[k + 1] == 'Y' then 4 else 2);
    ScanNumber(t, fmt, k, i, f, NatValue(s), i + |s|);
  }

  lemma {:induction false} LiteralRead(t: string, fmt: string, k: nat, i: nat, f: Fields, c: char, rest: string)
    requires k < |fmt| && fmt[k] == c && c != '%' && !IsSpace(c) && i <= |t| && t[i..] == [c] + rest
    ensures i + 1 <= |t| && t[i + 1..] == rest && Scan(t, fmt, k, i, f) == Scan(t, fmt, k + 1, i + 1, f)
  {
    Piece(t, i, [c], rest);
    hide Scan;
    ScanLiteral(t, fmt, k, i, f);
  }

  /** A number and the literal behind it. */
  lemma {:induction false} NumberThen(t: string, fmt: string, k: nat, i: nat, f: Fields, s: string, c: char,
      rest: string)
    requires k + 2 < |fmt| && fmt[k] == '%' && IsField(fmt[k + 1]) && fmt[k + 2] == c
    requires c != '%' && c != '.' && !IsSpace(c) && !IsDigit(c)
    requires i <= |t| && t[i..] == s + ([c] + rest) && Number(s, if fmt[k + 1] == 'Y' then 4 else 2)
    ensures i + |s| + 1 <= |t| && t[i + |s| + 1..] == rest
    ensures Scan(t, fmt, k, i, f) ==
            var f' := SetField(fmt[k + 1], f, NatValue(s));
            if f'.None? then Failed else Scan(t, fmt, k + 3, i + |s| + 1, f'.value)
  {
    hide Scan, SetField, NatValue, Number, Ends;
    Follows(c, rest);
    FieldRead(t, fmt, k, i, f, s, [c] + rest);
    var f' := SetField(fmt[k + 1], f, NatValue(s));
    Piece(t, i + |s|, [c], rest);
    if f'.Some? { LiteralRead(t, fmt, k + 2, i + |s|, f'.value, c, rest); }
  }

  lemma {:induction false} Follows(sep: char, x: string)
    requires !IsDigit(sep) && sep != '.'
    ensures Ends([sep] + x)
  {
  }

  // ---- dates ----

  /** Three numbers with a separator between them. */
  function Three(a: string, b: string, c: string, sep: char, rest: string): string {
    a + ([sep] + (b + ([sep] + (c + rest))))
  }

  /** The format starts with three commands and the separator between them. */
  ghost predicate StartsWith(fmt: string, x: char, y: char, z: char, sep: char) {
    && |fmt| >= 8 && fmt[0] == '%' && fmt[1] == x && fmt[2] == sep && fmt[3] == '%' && fmt[4] == y && fmt[5] == sep
    && fmt[6] == '%' && fmt[7] == z
  }

  /** Year, month and day with '-' between them. */
  lemma {:induction false} YearFirst(t: string, fmt: string, y: string, m: string, d: string, rest: string)
    requires StartsWith(fmt, 'Y', 'm', 'd', '-') && t == Three(y, m, d, '-', rest) && Ends(rest)
    requires Number(y, 4) && Number(m, 2) && Number(d, 2)
    ensures var i := |y| + |m| + |d| + 2;
      && i <= |t| && t[i..] == rest
      && Scan(t, fmt, 0, 0, NOTHING)
        == Scan(t, fmt, 8, i, NOTHING.(Y := NatValue(y), m := NatValue(m), d := NatValue(d)))
  {
    hide Scan, NatValue, Number, Ends;
    assert t[0..] == t;
    NumberThen(t, fmt, 0, 0, NOTHING, y, '-', m + (['-'] + (d + rest)));
    var f1 := NOTHING.(Y := NatValue(y));
    NumberThen(t, fmt, 3, |y| + 1, f1, m, '-', d + rest);
    FieldRead(t, fmt, 6, |y| + 1 + |m| + 1, f1.(m := NatValue(m)), d, rest);
  }

  /** Month, day and year with '/' between them. */
  lemma {:induction false} MonthFirst(t: string, fmt: string, m: string, d: string, y: string, rest: string)
    requires StartsWith(fmt, 'm', 'd', 'Y', '/') && t == Three(m, d, y, '/', rest) && Ends(rest)
    requires Number(y, 4) && Number(m, 2) && Number(d, 2)
    ensures var i := |m| + |d| + |y| + 2;
      && i <= |t| && t[i..] == rest
      && Scan(t, fmt, 0, 0, NOTHING)
        == Scan(t, fmt, 8, i, NOTHING.(Y := NatValue(y), m := NatValue(m), d := NatValue(d)))
  {
    hide Scan, NatValue, Number, Ends;
    assert t[0..] == t;
    NumberThen(t, fmt, 0, 0, NOTHING, m, '/', d + (['/'] + (y + rest)));
    var f1 := NOTHING.(m := NatValue(m));
    NumberThen(t, fmt, 3, |m| + 1, f1, d, '/', y + rest);
    FieldRead(t, fmt, 6, |m| + 1 + |d| + 1, f1.(d := NatValue(d)), y, rest);
  }

  /** The first instant of a date that exists. */
  function Midnight(y: nat, m: nat, d: nat): Outcome<int> {
    if Ok(Date(y, m, d)) then Done(ToDays(Date(y, m, d)) * 86400) else Failed
  }

  lemma {:induction false} FourDigitsBelow(s: string)
    requires AllDigits(s)
    ensures NatValue(s) < Pow10(|s|)
  {
    if s != "" { FourDigitsBelow(s[..|s| - 1]); }
  }

  lemma {:induction false} YearBelow(s: string)
    requires Number(s, 4)
    ensures NatValue(s) <= 9999
  {
    FourDigitsBelow(s);
    assert Pow10(0) == 1 && Pow10(1) == 10 && Pow10(2) == 100 && Pow10(3) == 1000 && Pow10(4) == 10000;
  }

  lemma {:induction false} NoTime(f: Fields)
    requires f.H == NOT_AN_HOUR && f.M == NOT_A_MINUTE && f.s == NOT_A_SECOND
    requires 0 <= f.Y <= 9999 && f.m >= 0 && f.d >= 0
    ensures Instant(f) == Midnight(f.Y, f.m, f.d)
  {
    hide ToDays, Ok;
  }

  /** A date of a four-digit year or less, with one or two digits for month and day, is read as its first
      instant exactly when the date exists; what stands behind it is not looked at. */
  lemma {:induction false} DateRead(y: string, m: string, d: string, rest: string)
    requires Number(y, 4) && Number(m, 2) && Number(d, 2) && Ends(rest)
    ensures ParseOne(y + "-" + m + "-" + d + rest, "%Y-%m-%d") == Midnight(NatValue(y), NatValue(m), NatValue(d))
    ensures ParseOne(m + "/" + d + "/" + y + rest, "%m/%d/%Y") == Midnight(NatValue(y), NatValue(m), NatValue(d))
  {
    hide NatValue, Number, Ends, Instant, Midnight;
    YearBelow(y);
    DashText(y, m, d, rest);
    SlashText(m, d, y, rest);
    Formats();
    YearFirst(Three(y, m, d, '-', rest), "%Y-%m-%d", y, m, d, rest);
    MonthFirst(Three(m, d, y, '/', rest), "%m/%d/%Y", m, d, y, rest);
    NoTime(NOTHING.(Y := NatValue(y), m := NatValue(m), d := NatValue(d)));
  }

  lemma {:induction false} DashText(a: string, b: string, c: string, rest: string)
    ensures a + "-" + b + "-" + c + rest == Three(a, b, c, '-', rest)
  {
  }

  lemma {:induction false} SlashText(a: string, b: string, c: string, rest: string)
    ensures a + "/" + b + "/" + c + rest == Three(a, b, c, '/', rest)
  {
  }

  lemma {:induction false} Formats()
    ensures StartsWith("%Y-%m-%d", 'Y', 'm', 'd', '-') && StartsWith("%m/%d/%Y", 'm', 'd', 'Y', '/')
    ensures |"%Y-%m-%d"| == |"%m/%d/%Y"| == 8
  {
  }

  // ---- dates with a time of day ----

  predicate Blank(gap: string) { forall k :: 0 <= k < |gap| ==> IsSpace(gap[k]) }

  lemma {:induction false} GapSkipped(t: string, i: nat, gap: string, rest: string)
    requires i <= |t| && t[i..] == gap + rest && Blank(gap) && (rest == "" || !IsSpace(rest[0]))
    ensures SkipSpace(t, i) == i + |gap|
    decreases |gap|
  {
    if gap == "" {
      assert t[i..] == rest;
      assert i < |t| ==> t[i] == rest[0];
    } else {
      assert t[i] == t[i..][0] == gap[0];
      assert t[i + 1..] == t[i..][1..] == gap[1..] + rest;
      GapSkipped(t, i + 1, gap[1..], rest);
    }
  }

  /** White space where the format has a blank, or the 'T' where it has one. */
  lemma {:induction false} GapRead(t: string, fmt: string, k: nat, i: nat, f: Fields, gap: string, rest: string)
    requires k < |fmt| && i <= |t| && t[i..] == gap + rest && rest != "" && IsDigit(rest[0])
    requires if fmt[k] == ' ' then Blank(gap) else fmt[k] == 'T' && gap == "T"
    ensures i + |gap| <= |t| && t[i + |gap|..] == rest && Scan(t, fmt, k, i, f) == Scan(t, fmt, k + 1, i + |gap|, f)
  {
    Piece(t, i, gap, rest);
    if fmt[k] == ' ' {
      GapSkipped(t, i, gap, rest);
    } else {
      hide Scan;
      ScanLiteral(t, fmt, k, i, f);
    }
  }

  /** The time half of the ISO formats. */
  ghost predicate EndsWithTime(fmt: string) {
    && |fmt| == 17 && fmt[9] == '%' && fmt[10] == 'H' && fmt[11] == ':' && fmt[12] == '%' && fmt[13] == 'M'
    && fmt[14] == ':' && fmt[15] == '%' && fmt[16] == 'S'
  }

  lemma {:induction false} TimeRead(t: string, fmt: string, i: nat, f: Fields, h: string, m: string, s: string,
      rest: string)
    requires EndsWithTime(fmt) && i <= |t| && t[i..] == Three(h, m, s, ':', rest) && Ends(rest)
    requires Number(h, 2) && Number(m, 2) && Number(s, 2)
    requires f.H == NOT_AN_HOUR && f.M == NOT_A_MINUTE && f.s == NOT_A_SECOND
    ensures Scan(t, fmt, 9, i, f) == Done(f.(H := NatValue(h), M := NatValue(m), s := NatValue(s)))
  {
    hide Scan, NatValue, Number, Ends;
    NumberThen(t, fmt, 9, i, f, h, ':', m + ([':'] + (s + rest)));
    var f1 := f.(H := NatValue(h));
    NumberThen(t, fmt, 12, i + |h| + 1, f1, m, ':', s + rest);
    var f2 := f1.(M := NatValue(m));
    FieldRead(t, fmt, 15, i + |h| + 1 + |m| + 1, f2, s, rest);
    EndRead(t, fmt, i + |h| + 1 + |m| + 1 + |s|, f2.(s := NatValue(s)));
  }

  lemma {:induction false} EndRead(t: string, fmt: string, i: nat, f: Fields)
    requires i <= |t|
    ensures Scan(t, fmt, |fmt|, i, f) == Done(f)
  {
  }

  /** The instant of a date that exists and a time of day within its bounds. */
  function AtTime(y: nat, mo: nat, d: nat, h: nat, m: nat, s: nat): Outcome<int> {
    if Ok(Date(y, mo, d)) && h <= 23 && m <= 59 && s <= 59
    then Done(ToDays(Date(y, mo, d)) * 86400 + h * 3600 + m * 60 + s)
    else Failed
  }

  lemma {:induction false} WithTime(f: Fields)
    requires 0 <= f.Y <= 9999 && f.m >= 0 && f.d >= 0 && f.H >= 0 && f.M >= 0 && f.s >= 0
    ensures Instant(f) == AtTime(f.Y, f.m, f.d, f.H, f.M, f.s)
  {
    hide ToDays, Ok;
  }

  lemma {:induction false} DigitFirst(h: string, m: string, s: string, rest: string)
    requires Number(h, 2)
    ensures Three(h, m, s, ':', rest) != "" && IsDigit(Three(h, m, s, ':', rest)[0])
  {
  }

  lemma {:induction false} GapEnds(gap: string, rest: string)
    requires (gap != "" && Blank(gap)) || gap == "T"
    ensures Ends(gap + rest)
  {
  }

  /** Six numbers of the right lengths are read as an instant exactly when the date exists and the hour is at most
      23, the minute at most 59 and the second at most 59; any white space may stand for a blank. */
  lemma {:induction false} DatetimeRead(fmt: string, y: string, mo: string, d: string, gap: string,
      h: string, m: string, s: string, rest: string)
    requires (fmt == "%Y-%m-%d %H:%M:%S" && gap != "" && Blank(gap)) || (fmt == "%Y-%m-%dT%H:%M:%S" && gap == "T")
    requires Number(y, 4) && Number(mo, 2) && Number(d, 2) && Number(h, 2) && Number(m, 2) && Number(s, 2) && Ends(rest)
    ensures ParseOne(y + "-" + mo + "-" + d + gap + (h + ":" + m + ":" + s + rest), fmt)
         == AtTime(NatValue(y), NatValue(mo), NatValue(d), NatValue(h), NatValue(m), NatValue(s))
  {
    hide Scan, NatValue, Number, Ends, Instant, AtTime, Blank;
    var time := Three(h, m, s, ':', rest);
    var t := Three(y, mo, d, '-', gap + time);
    DatetimeText(y, mo, d, gap, h, m, s, rest);
    IsoCharsAre(fmt);
    YearBelow(y);
    GapEnds(gap, time);
    DigitFirst(h, m, s, rest);
    YearFirst(t, fmt, y, mo, d, gap + time);
    var i := |y| + |mo| + |d| + 2;
    var f := NOTHING.(Y := NatValue(y), m := NatValue(mo), d := NatValue(d));
    GapRead(t, fmt, 8, i, f, gap, time);
    TimeRead(t, fmt, i + |gap|, f, h, m, s, rest);
    WithTime(f.(H := NatValue(h), M := NatValue(m), s := NatValue(s)));
  }

  lemma {:induction false} IsoCharsAre(fmt: string)
    requires fmt == "%Y-%m-%d %H:%M:%S" || fmt == "%Y-%m-%dT%H:%M:%S"
    ensures StartsWith(fmt, 'Y', 'm', 'd', '-') && EndsWithTime(fmt) && |fmt| > 8
    ensures fmt[8] == if fmt == "%Y-%m-%d %H:%M:%S" then ' ' else 'T'
  {
  }

  lemma {:induction false} ColonText(h: string, m: string, s: string, rest: string)
    ensures h + ":" + m + ":" + s + rest == Three(h, m, s, ':', rest)
  {
  }

  lemma {:induction false} DatetimeText(y: string, mo: string, d: string, gap: string, h: string, m: string, s: string,
      rest: string)
    ensures y + "-" + mo + "-" + d + gap + (h + ":" + m + ":" + s + rest)
         == Three(y, mo, d, '-', gap + Three(h, m, s, ':', rest))
  {
    ColonText(h, m, s, rest);
    hide Three;
    var time := Three(h, m, s, ':', rest);
    Assoc(y + "-" + mo + "-" + d, gap, time);
    DashText(y, mo, d, gap + time);
  }

  // ---- cells ----

  /** The formats tried on a date cell when none is given on the command line. */
  const DATE_FORMATS: seq<string> := ["%m/%d/%Y", "%Y-%m-%d"]

  lemma {:induction false} BlanksOff(pad: string, t: string)
    requires (forall k :: 0 <= k < |pad| ==> pad[k] == ' ') && (t == "" || t[0] != ' ')
    ensures TrimLeft(pad + t) == t
    decreases |pad|
  {
    if pad == "" {
      assert pad + t == t;
    } else {
      assert (pad + t)[1..] == pad[1..] + t;
      BlanksOff(pad[1..], t);
    }
  }

  /** The other format does not fit: behind the first number its separator is not the text's. */
  lemma {:induction false} OtherFails(y: string, m: string, d: string, rest: string)
    requires Number(y, 4) && Number(m, 2) && Number(d, 2)
    ensures ParseOne(Three(y, m, d, '-', rest), "%m/%d/%Y") == Failed
    ensures ParseOne(Three(m, d, y, '/', rest), "%Y-%m-%d") == Failed
  {
    NumberThenOther(y, "%m/%d/%Y", '-', m + (['-'] + (d + rest)));
    NumberThenOther(m, "%Y-%m-%d", '/', d + (['/'] + (y + rest)));
  }

  lemma {:induction false} NumberThenOther(s: string, fmt: string, sep: char, rest: string)
    requires Number(s, 4) && (sep == '-' || sep == '/') && |fmt| >= 3 && fmt[0] == '%' && fmt[2] != sep
    requires (fmt[1] == 'm' && fmt[2] == '/') || (fmt[1] == 'Y' && fmt[2] == '-')
    ensures ParseOne(s + ([sep] + rest), fmt) == Failed
  {
    var t := s + ([sep] + rest);
    var max := if fmt[1] == 'Y' then 4 else 2;
    var j := if |s| < max then |s| else max;
    assert t[|s|] == sep && forall k :: 0 <= k < |s| ==> t[k] == s[k];
    DigitsEndAt(t, 0, j, max);
    hide NatValue;
    var n := NatValue(t[0..j]);
    assert ReadNumber(fmt[1], t, 0) == Some((n, j));
    ScanNumber(t, fmt, 0, 0, NOTHING, n, j);
    var f' := SetField(fmt[1], NOTHING, n);
    assert f'.Some?;
    ScanMismatch(t, fmt, 2, j, f'.value);
  }

  /** A date cell in either default format, with blanks in front, is read as the date's first instant exactly when
      the date exists. */
  lemma {:induction false} DateCell(pad: string, y: string, m: string, d: string, rest: string)
    requires forall k :: 0 <= k < |pad| ==> pad[k] == ' '
    requires Number(y, 4) && Number(m, 2) && Number(d, 2) && Ends(rest)
    ensures ParseFirst(TrimLeft(pad + (y + "-" + m + "-" + d + rest)), DATE_FORMATS)
         == Midnight(NatValue(y), NatValue(m), NatValue(d))
    ensures ParseFirst(TrimLeft(pad + (m + "/" + d + "/" + y + rest)), DATE_FORMATS)
         == Midnight(NatValue(y), NatValue(m), NatValue(d))
  {
    hide ParseOne, NatValue, Midnight;
    DashText(y, m, d, rest);
    SlashText(m, d, y, rest);
    BlanksOff(pad, Three(y, m, d, '-', rest));
    BlanksOff(pad, Three(m, d, y, '/', rest));
    DateRead(y, m, d, rest);
    OtherFails(y, m, d, rest);
    hide Number, Three, TrimLeft;
    TwoFormats(Three(y, m, d, '-', rest));
    TwoFormats(Three(m, d, y, '/', rest));
  }

  lemma {:induction false} TwoFormats(t: string)
    ensures ParseFirst(t, DATE_FORMATS)
      == if ParseOne(t, "%m/%d/%Y") != Failed then ParseOne(t, "%m/%d/%Y") else ParseOne(t, "%Y-%m-%d")
  {
    hide ParseOne;
    assert DATE_FORMATS[1..] == ["%Y-%m-%d"] && ["%Y-%m-%d"][1..] == [];
    assert ParseFirst(t, ["%Y-%m-%d"]) == ParseOne(t, "%Y-%m-%d");
  }

  /** Every date of a year in 0..9999 is found again from its text, with leading zeros or without. */
  lemma {:induction false} EveryDate(x: Date)
    requires Ok(x) && 0 <= x.year <= 9999
    ensures ParseFirst(TrimLeft(Pad4(x.year) + "-" + Pad2(x.month) + "-" + Pad2(x.day)), DATE_FORMATS)
         == Done(ToDays(x) * 86400)
    ensures ParseFirst(TrimLeft(NatText(x.year) + "-" + NatText(x.month) + "-" + NatText(x.day)), DATE_FORMATS)
         == Done(ToDays(x) * 86400)
    ensures ParseFirst(TrimLeft(NatText(x.month) + "/" + NatText(x.day) + "/" + NatText(x.year)), DATE_FORMATS)
         == Done(ToDays(x) * 86400)
  {
    DateNumbers(x);
    hide ParseFirst, TrimLeft, Pad4, Pad2, NatText, NatValue, ToDays, Ok, Number;
    DateCell("", Pad4(x.year), Pad2(x.month), Pad2(x.day), "");
    DateCell("", NatText(x.year), NatText(x.month), NatText(x.day), "");
    Bare(Pad4(x.year) + "-" + Pad2(x.month) + "-" + Pad2(x.day));
    Bare(NatText(x.year) + "-" + NatText(x.month) + "-" + NatText(x.day));
    Bare(NatText(x.month) + "/" + NatText(x.day) + "/" + NatText(x.year));
  }

  lemma {:induction false} Bare(t: string)
    ensures "" + (t + "") == t
  {
  }

  lemma {:induction false} DateNumbers(x: Date)
    requires Ok(x) && 0 <= x.year <= 9999
    ensures 1 <= x.month <= 12 && 1 <= x.day <= 31
    ensures Number(Pad4(x.year), 4) && NatValue(Pad4(x.year)) == x.year
    ensures Number(Pad2(x.month), 2) && NatValue(Pad2(x.month)) == x.month
    ensures Number(Pad2(x.day), 2) && NatValue(Pad2(x.day)) == x.day
    ensures Number(NatText(x.year), 4) && NatValue(NatText(x.year)) == x.year
    ensures Number(NatText(x.month), 2) && NatValue(NatText(x.month)) == x.month
    ensures Number(NatText(x.day), 2) && NatValue(NatText(x.day)) == x.day
  {
    MonthAndDay(x);
    hide Pad4, Pad2, NatText, NatValue, Ok;
    Pad4Is(x.year);
    Pad2Value(x.month);
    Pad2Value(x.day);
    ShortText(x.year);
    ShortText(x.month);
    ShortText(x.day);
  }

  lemma {:induction false} ShortText(n: nat)
    requires n <= 9999
    ensures Number(NatText(n), 4) && NatValue(NatText(n)) == n && (n < 100 ==> Number(NatText(n), 2))
  {
    NatTextValue(n);
    NatTextLength(n);
    hide NatText, NatValue;
  }

  // ---- signs, repeated and missing fields ----

  /** A sign in front of a number of a date counts as one of its characters. */
  lemma {:induction false} SignRead(t: string, i: nat, s: string, rest: string, max: nat)
    requires max >= 3 && i <= |t| && Number(s, max - 1) && Ends(rest)
    ensures var n: int := NatValue(s);
      && (t[i..] == "-" + s + rest ==> ReadSigned(t, i, 1, max) == Some((-n, i + 1 + |s|)))
      && (t[i..] == "+" + s + rest ==> ReadSigned(t, i, 1, max) == Some((n, i + 1 + |s|)))
  {
    hide NatValue, ReadUnsigned;
    if t[i..] == "-" + s + rest || t[i..] == "+" + s + rest {
      var sign := t[i..][..1];
      assert t[i..] == sign + (s + rest);
      Piece(t, i, sign, s + rest);
      NumberRead(t, i + 1, s, rest, max - 1);
    }
  }

  /** Two days, and the rest of a date behind them. */
  lemma {:induction false} TwoDays(t: string, fmt: string, d: string, e: string, rest: string)
    requires |fmt| >= 6 && fmt[..6] == "%d/%d/" && t == d + (['/'] + (e + (['/'] + rest)))
    requires Number(d, 2) && Number(e, 2)
    ensures var i := |d| + 1 + |e| + 1;
      && i <= |t| && t[i..] == rest
      && Scan(t, fmt, 0, 0, NOTHING)
        == if NatValue(d) != NatValue(e) && NatValue(d) != 0 then Failed
           else Scan(t, fmt, 6, i, NOTHING.(d := NatValue(e)))
  {
    hide Scan, NatValue, Number;
    DayChars(fmt);
    assert t[0..] == t;
    NumberThen(t, fmt, 0, 0, NOTHING, d, '/', e + (['/'] + rest));
    NumberThen(t, fmt, 3, |d| + 1, NOTHING.(d := NatValue(d)), e, '/', rest);
  }

  lemma {:induction false} DayChars(fmt: string)
    requires |fmt| >= 6 && fmt[..6] == "%d/%d/"
    ensures fmt[0] == '%' && fmt[1] == 'd' && fmt[2] == '/' && fmt[3] == '%' && fmt[4] == 'd' && fmt[5] == '/'
  {
    assert forall k :: 0 <= k < 6 ==> fmt[k] == fmt[..6][k];
  }

  /** The month and the year behind the days. */
  lemma {:induction false} MonthAndYear(t: string, fmt: string, i: nat, f: Fields, m: string, y: string)
    requires fmt == "%d/%d/%m/%Y" && i <= |t| && t[i..] == m + (['/'] + (y + "")) && Number(m, 2) && Number(y, 4)
    requires f.Y == NOT_A_YEAR && f.m == NOT_A_MONTH
    ensures Scan(t, fmt, 6, i, f) == Done(f.(Y := NatValue(y), m := NatValue(m)))
  {
    hide Scan, NatValue, Number, Ends;
    NothingEnds();
    NumberThen(t, fmt, 6, i, f, m, '/', y + "");
    var g := f.(m := NatValue(m));
    FieldRead(t, fmt, 9, i + |m| + 1, g, y, "");
    EndRead(t, fmt, i + |m| + 1 + |y|, g.(Y := NatValue(y)));
  }

  /** A field that is read twice must be read the same; a day of 0 counts as none. */
  lemma {:induction false} DayTwice(d: string, e: string, m: string, y: string)
    requires Number(d, 2) && Number(e, 2) && Number(m, 2) && Number(y, 4)
    ensures ParseOne(d + "/" + e + "/" + m + "/" + y, "%d/%d/%m/%Y")
      == if NatValue(d) != NatValue(e) && NatValue(d) != 0 then Failed
         else Midnight(NatValue(y), NatValue(m), NatValue(e))
  {
    hide Scan, NatValue, Number, Instant, Midnight;
    var fmt := "%d/%d/%m/%Y";
    var t := d + (['/'] + (e + (['/'] + (m + (['/'] + (y + ""))))));
    FourText(d, e, m, y);
    YearBelow(y);
    assert fmt[..6] == "%d/%d/";
    TwoDays(t, fmt, d, e, m + (['/'] + (y + "")));
    var f := NOTHING.(d := NatValue(e));
    MonthAndYear(t, fmt, |d| + 1 + |e| + 1, f, m, y);
    NoTime(f.(Y := NatValue(y), m := NatValue(m)));
  }

  lemma {:induction false} FourText(a: string, b: string, c: string, d: string)
    ensures a + "/" + b + "/" + c + "/" + d == a + (['/'] + (b + (['/'] + (c + (['/'] + (d + ""))))))
  {
  }

  lemma {:induction false} NothingEnds()
    ensures Ends("")
  {
  }

  /** Without a year there is no instant. */
  lemma {:induction false} NoYear(h: string, m: string, s: string)
    requires Number(h, 2) && Number(m, 2) && Number(s, 2)
    ensures ParseOne(h + ":" + m + ":" + s, "%H:%M:%S") == Failed
  {
    hide Scan, NatValue, Number, Ends;
    var fmt := "%H:%M:%S";
    var t := Three(h, m, s, ':', "");
    ColonText(h, m, s, "");
    assert h + ":" + m + ":" + s + "" == h + ":" + m + ":" + s;
    NothingEnds();
    assert t[0..] == t;
    NumberThen(t, fmt, 0, 0, NOTHING, h, ':', m + ([':'] + (s + "")));
    var f1 := NOTHING.(H := NatValue(h));
    NumberThen(t, fmt, 3, |h| + 1, f1, m, ':', s + "");
    var f2 := f1.(M := NatValue(m));
    FieldRead(t, fmt, 6, |h| + 1 + |m| + 1, f2, s, "");
    EndRead(t, fmt, |h| + 1 + |m| + 1 + |s|, f2.(s := NatValue(s)));
  }

  /** A year of up to three digits before year 0. */
  lemma {:induction false} NegativeYear(y: string, m: string, d: string)
    requires Number(y, 3) && Number(m, 2) && Number(d, 2)
    ensures var n: int := NatValue(y);
      var date := Date(-n, NatValue(m), NatValue(d));
      ParseOne("-" + y + "-" + m + "-" + d, "%Y-%m-%d") == if Ok(date) then Done(ToDays(date) * 86400) else Failed
  {
    hide Scan, NatValue, Number, Ends, Instant, ReadSigned, ToDays, Ok;
    var fmt := "%Y-%m-%d";
    var n: int := NatValue(y);
    var rest := m + (['-'] + (d + ""));
    var t := "-" + y + (['-'] + rest);
    SignText(y, m, d);
    Formats();
    Follows('-', rest);
    NothingEnds();
    assert t[0..] == t;
    SignRead(t, 0, y, ['-'] + rest, 4);
    YearNumber(t, 0);
    ScanNumber(t, fmt, 0, 0, NOTHING, -n, 1 + |y|);
    var f1 := NOTHING.(Y := -n);
    Piece(t, 0, "-" + y, ['-'] + rest);
    Shorter(y);
    YearBelow(y);
    LiteralRead(t, fmt, 2, 1 + |y|, f1, '-', rest);
    NumberThen(t, fmt, 3, 2 + |y|, f1, m, '-', d + "");
    var f2 := f1.(m := NatValue(m));
    FieldRead(t, fmt, 6, 3 + |y| + |m|, f2, d, "");
    var f3 := f2.(d := NatValue(d));
    EndRead(t, fmt, 3 + |y| + |m| + |d|, f3);
    NegativeInstant(f3);
  }

  lemma {:induction false} Shorter(y: string)
    requires Number(y, 3)
    ensures Number(y, 4)
  {
  }

  lemma {:induction false} SignText(y: string, m: string, d: string)
    ensures "-" + y + "-" + m + "-" + d == "-" + y + (['-'] + (m + (['-'] + (d + ""))))
  {
  }

  lemma {:induction false} NegativeInstant(f: Fields)
    requires f.H == NOT_AN_HOUR && f.M == NOT_A_MINUTE && f.s == NOT_A_SECOND && -9999 <= f.Y <= 0
    ensures Instant(f)
      == if Ok(Date(f.Y, f.m, f.d)) then Done(ToDays(Date(f.Y, f.m, f.d)) * 86400) else Failed
  {
    hide ToDays, Ok;
  }
}
