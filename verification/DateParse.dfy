/**
 Parsing a date cell: `from_stream` over one format, the instant its fields denote, and the list of
 formats tried in turn (suite/include/reader-bridge-impl.hpp); with it, the round trip through the
 date and time text that csvsuite prints.
 */
module DateParse {
  import opened Text
  import opened Calendar
  import opened DateText

  /** `checked_set`: a field may be read twice if it is read the same. */
  function CheckedSet(value: int, from: int, notAValue: int): Option<int> {
    if value == notAValue then Some(from) else if value == from then Some(value) else None
  }

  /** A number read for a command goes into its field. */
  function SetField(command: char, f: Fields, x: int): Option<Fields> {
    match command
    case 'Y' => var v := CheckedSet(f.Y, x, NOT_A_YEAR); if v.Some? then Some(f.(Y := v.value)) else None
    case 'm' => var v := CheckedSet(f.m, x, NOT_A_MONTH); if v.Some? then Some(f.(m := v.value)) else None
    case 'd' => var v := CheckedSet(f.d, x, NOT_A_DAY); if v.Some? then Some(f.(d := v.value)) else None
    case 'H' => var v := CheckedSet(f.H, x, NOT_AN_HOUR); if v.Some? then Some(f.(H := v.value)) else None
    case 'M' => var v := CheckedSet(f.M, x, NOT_A_MINUTE); if v.Some? then Some(f.(M := v.value)) else None
    case _ => var v := CheckedSet(f.s, x, NOT_A_SECOND); if v.Some? then Some(f.(s := v.value)) else None
  }

  predicate IsField(command: char) { command in "YmdHMS" }

  /** The number a command reads: signed for dates, unsigned for hours and minutes, decimal for seconds. */
  function ReadNumber(command: char, t: string, i: nat): Option<(int, nat)>
    requires i <= |t|
  {
    match command
    case 'Y' => ReadSigned(t, i, 1, 4)
    case 'm' => ReadSigned(t, i, 1, 2)
    case 'd' => ReadSigned(t, i, 1, 2)
    case 'H' => ReadUnsigned(t, i, 1, 2)
    case 'M' => ReadUnsigned(t, i, 1, 2)
    case _ => ReadSeconds(t, i, 1, 2)
  }

  function SkipSpace(t: string, i: nat): (j: nat)
    requires i <= |t|
    ensures i <= j <= |t|
    decreases |t| - i
  {
    if i < |t| && IsSpace(t[i]) then SkipSpace(t, i + 1) else i
  }

  lemma {:induction false} NumberEnd(command: char, t: string, i: nat)
    requires i <= |t| && ReadNumber(command, t, i).Some?
    ensures i <= ReadNumber(command, t, i).value.1 <= |t|
  {
  }

  /** A command outside this model: all that is said of it is that no name of a month is read from a digit. */
  function Other(command: char, t: string, i: nat): Outcome<Fields> {
    if command in "bBh" && i < |t| && IsDigit(t[i]) then Failed else Unmodelled
  }

  /** Reads `t` from `i` on against the rest of the format from `k` on. */
  function Scan(t: string, fmt: string, k: nat, i: nat, f: Fields): Outcome<Fields>
    requires k <= |fmt| && i <= |t|
    decreases |fmt| - k
  {
    if k == |fmt| then Done(f)
    else if fmt[k] == '%' then
      if k + 1 == |fmt| then Unmodelled
      else if !IsField(fmt[k + 1]) then Other(fmt[k + 1], t, i)
      else
        var n := ReadNumber(fmt[k + 1], t, i);
        if n.None? then Failed
        else
          var f' := SetField(fmt[k + 1], f, n.value.0);
          NumberEnd(fmt[k + 1], t, i);
          if f'.None? then Failed else Scan(t, fmt, k + 2, n.value.1, f'.value)
    else if IsSpace(fmt[k]) then Scan(t, fmt, k + 1, SkipSpace(t, i), f)
    else if i < |t| && t[i] == fmt[k] then Scan(t, fmt, k + 1, i + 1, f)
    else Failed
  }

  /** The instant that the fields denote, if the date exists and the time of day is in range. */
  function Instant(f: Fields): Outcome<int> {
    var date := Date(f.Y, f.m, f.d);
    var H := if f.H == NOT_AN_HOUR then 0 else f.H;
    var M := if f.M == NOT_A_MINUTE then 0 else f.M;
    var S := if f.s == NOT_A_SECOND then 0 else f.s;
    if -32767 <= f.Y <= 32767 && Ok(date) && H < 24 && M < 60 && S < 60
    then Done(ToDays(date) * 86400 + H * 3600 + M * 60 + S)
    else Failed
  }

  function ParseOne(t: string, fmt: string): Outcome<int> {
    var r := Scan(t, fmt, 0, 0, NOTHING);
    match r
    case Done(f) => Instant(f)
    case Failed => Failed
    case Unmodelled => Unmodelled
  }

  /** The first format that fits. */
  function ParseFirst(t: string, formats: seq<string>): Outcome<int> {
    if formats == [] then Failed
    else
      var r := ParseOne(t, formats[0]);
      if r == Failed then ParseFirst(t, formats[1..]) else r
  }

  /** `read_signed` */
  method ReadSignedLoop(t: string, i: nat, max: nat) returns (n: Option<(int, nat)>)
    requires i <= |t| && max >= 2
    ensures n == ReadSigned(t, i, 1, max)
  {
    hide ReadUnsigned;
    if i == |t| {
      return None;
    }
    var c := t[i];
    if IsDigit(c) {
      n := ReadUnsignedLoop(t, i, 1, max);
    } else if c == '-' || c == '+' {
      n := ReadUnsignedLoop(t, i + 1, 1, max - 1);
      if n.Some? && c == '-' {
        n := Some((-n.value.0, n.value.1));
      }
    } else {
      n := None;
    }
  }

  method ReadNumberLoop(command: char, t: string, i: nat) returns (n: Option<(int, nat)>)
    requires i <= |t|
    ensures n == ReadNumber(command, t, i)
  {
    hide ReadUnsigned, ReadSigned, ReadSeconds;
    if command == 'S' || !IsField(command) {
      n := ReadSecondsLoop(t, i, 1, 2);
    } else if command == 'H' || command == 'M' {
      n := ReadUnsignedLoop(t, i, 1, 2);
    } else {
      n := ReadSignedLoop(t, i, if command == 'Y' then 4 else 2);
    }
  }

  /** `std::ws` */
  method Ws(t: string, start: nat) returns (i: nat)
    requires start <= |t|
    ensures i == SkipSpace(t, start)
  {
    i := start;
    while i < |t| && IsSpace(t[i])
      invariant i <= |t| && SkipSpace(t, start) == SkipSpace(t, i)
      decreases |t| - i
    {
      i := i + 1;
    }
  }

  /** The loop of `from_stream`. */
  method FromStream(t: string, fmt: string) returns (r: Outcome<int>)
    ensures r == ParseOne(t, fmt)
  {
    hide Instant, SetField, ReadNumber;
    var k: nat, i: nat, f := 0, 0, NOTHING;
    while k < |fmt|
      invariant k <= |fmt| && i <= |t| && Scan(t, fmt, 0, 0, NOTHING) == Scan(t, fmt, k, i, f)
    {
      if fmt[k] == '%' {
        if k + 1 == |fmt| {
          return Unmodelled;
        }
        if !IsField(fmt[k + 1]) {
          return if Other(fmt[k + 1], t, i) == Failed then Failed else Unmodelled;
        }
        var n := ReadNumberLoop(fmt[k + 1], t, i);
        if n.None? {
          return Failed;
        }
        NumberEnd(fmt[k + 1], t, i);
        var f' := SetField(fmt[k + 1], f, n.value.0);
        if f'.None? {
          return Failed;
        }
        k, i, f := k + 2, n.value.1, f'.value;
      } else if IsSpace(fmt[k]) {
        i := Ws(t, i);
        k := k + 1;
      } else if i < |t| && t[i] == fmt[k] {
        k, i := k + 1, i + 1;
      } else {
        return Failed;
      }
    }
    return Instant(f);
  }

  function TrimLeft(cell: string): string {
    if cell != "" && cell[0] == ' ' then TrimLeft(cell[1..]) else cell
  }

  /** `datetime_call_operator_impl`: leading blanks dropped, then the formats in turn. */
  method ParseCell(cell: string, formats: seq<string>) returns (r: Outcome<int>)
    ensures r == ParseFirst(TrimLeft(cell), formats)
  {
    var b := 0;
    assert cell[0..] == cell;
    while b < |cell| && cell[b] == ' '
      invariant b <= |cell| && TrimLeft(cell) == TrimLeft(cell[b..])
    {
      assert cell[b..][1..] == cell[b + 1..];
      b := b + 1;
    }
    var trimmed := cell[b..];
    var n := 0;
    assert formats[0..] == formats;
    while n < |formats|
      invariant n <= |formats| && ParseFirst(trimmed, formats) == ParseFirst(trimmed, formats[n..])
    {
      assert formats[n..][1..] == formats[n + 1..];
      var one := FromStream(trimmed, formats[n]);
      if one != Failed {
        return one;
      }
      n := n + 1;
    }
    return Failed;
  }

  // ---- what the printed text of an instant is read as ----

  /** The formats of `datetime_s` and `datetime_s_json`. */
  const ISO_BLANK: string := "%Y-%m-%d %H:%M:%S"
  const ISO_T: string := "%Y-%m-%dT%H:%M:%S"

  /** The formats tried on a cell when none is given on the command line. */
  const DATETIME_FORMATS: seq<string> := [
    "%m/%d/%Y %I:%M %p", ISO_BLANK, ISO_T, "%Y-%m-%dT%H:%M:%SZ", "%Y-%b-%d %H:%M:%S"]

  /** The 16 bits that a `year` keeps. */
  function ShortYear(y: int): int { (y + 32768) % 65536 - 32768 }

  function ShortDate(x: Date): Date { x.(year := ShortYear(x.year)) }

  /** `to_stream` of an instant: the day is found by a division towards zero, put right before 1970. */
  function PartsOf(tp: int): Parts {
    var sd := CDiv(tp, 86400);
    var day := if sd * 86400 <= tp then sd else sd - 1;
    var tod := if sd * 86400 <= tp then tp - sd * 86400 else 86400 - (sd * 86400 - tp);
    Parts(ShortDate(FromDays(day)), tod / 3600, tod % 3600 / 60, tod % 60)
  }

  lemma {:induction false} ClockParts(tod: int)
    requires 0 <= tod < 86400
    ensures tod == tod / 3600 * 3600 + tod % 3600 / 60 * 60 + tod % 60
    ensures 0 <= tod / 3600 < 24 && 0 <= tod % 3600 / 60 < 60
  {
    assert tod / 60 == 60 * (tod / 3600) + tod % 3600 / 60;
  }

  /** The instant that a date and a time of day add up to. */
  function SumOf(x: Parts): int { ToDays(x.date) * 86400 + x.H * 3600 + x.M * 60 + x.S }

  /** An instant is split into the date of its day, the year in 16 bits, and the time of day; when the year
      fits, the date is valid and the parts add up to the instant. */
  lemma {:induction false} PartsOfIs(tp: int)
    ensures var x, date := PartsOf(tp), FromDays(tp / 86400);
      && PartsOk(x) && x.date == ShortDate(date) && Ok(date)
      && tp == ToDays(date) * 86400 + x.H * 3600 + x.M * 60 + x.S
      && (-32768 <= date.year <= 32767 <==> x.date.year == date.year)
      && (x.date.year == date.year <==> Ok(x.date) && tp == SumOf(x))
  {
    hide FromDays, ToDays, Ok, ShortYear;
    DaysRoundTrip(tp / 86400);
    MonthAndDay(FromDays(tp / 86400));
    ShortYearIs(FromDays(tp / 86400).year);
    ShortIs(FromDays(tp / 86400));
    DayOf(tp);
    ClockParts(tp % 86400);
  }

  lemma {:induction false} DayOf(tp: int)
    ensures var x, tod := PartsOf(tp), tp % 86400;
      && x.date == ShortDate(FromDays(tp / 86400))
      && x.H == tod / 3600 && x.M == tod % 3600 / 60 && x.S == tod % 60
  {
    hide FromDays, ShortYear;
    var sd := CDiv(tp, 86400);
    assert if sd * 86400 <= tp then sd == tp / 86400 else sd - 1 == tp / 86400;
  }

  lemma {:induction false} MonthAndDay(x: Date)
    requires Ok(x)
    ensures 1 <= x.month <= 12 && 1 <= x.day <= 31
  {
  }

  lemma {:induction false} ShortYearIs(y: int)
    ensures -32768 <= y <= 32767 <==> ShortYear(y) == y
  {
  }

  /** A date whose year is cut is another date, or none. */
  lemma {:induction false} ShortIs(x: Date)
    requires Ok(x)
    ensures ShortYear(x.year) == x.year <==> Ok(ShortDate(x)) && ToDays(ShortDate(x)) == ToDays(x)
  {
    hide ToDays, FromDays, Ok, ShortYear;
    DateRoundTrip(x);
    if Ok(ShortDate(x)) { DateRoundTrip(ShortDate(x)); }
  }

  /** A format of the shape of the two ISO ones, with `sep` between date and time. */
  ghost predicate IsIso(fmt: string, sep: char) {
    fmt == "%Y-%m-%d" + [sep] + "%H:%M:%S"
  }

  function TimeText(x: Parts): string
    requires PartsOk(x)
  {
    Pad2(x.H) + (":" + (Pad2(x.M) + (":" + (Pad2(x.S) + ""))))
  }

  function IsoText(x: Parts, sep: char): string
    requires PartsOk(x)
  {
    YearText(x.date.year) + ("-" + (Pad2(x.date.month) + ("-" + (Pad2(x.date.day) + ([sep] + TimeText(x))))))
  }

  lemma {:induction false} IsoChars(fmt: string, sep: char)
    requires IsIso(fmt, sep)
    ensures |fmt| == 17 && fmt[0] == '%' && fmt[1] == 'Y' && fmt[2] == '-' && fmt[3] == '%' && fmt[4] == 'm'
      && fmt[5] == '-' && fmt[6] == '%' && fmt[7] == 'd' && fmt[8] == sep && fmt[9] == '%' && fmt[10] == 'H'
      && fmt[11] == ':' && fmt[12] == '%' && fmt[13] == 'M' && fmt[14] == ':' && fmt[15] == '%' && fmt[16] == 'S'
  {
  }

  lemma {:induction false} PrintLiteral(fmt: string, k: nat, x: Parts, rest: string)
    requires k < |fmt| && fmt[k] != '%' && PartsOk(x) && Print(fmt, k + 1, x) == Done(rest)
    ensures Print(fmt, k, x) == Done([fmt[k]] + rest)
  {
  }

  lemma {:induction false} PrintCommand(fmt: string, k: nat, x: Parts, rest: string)
    requires k + 1 < |fmt| && fmt[k] == '%' && PartsOk(x) && FieldText(fmt[k + 1], x).Done?
    requires Print(fmt, k + 2, x) == Done(rest) && x.date.year != NOT_A_YEAR
    ensures Print(fmt, k, x) == Done(FieldText(fmt[k + 1], x).value + rest)
  {
  }

  /** The text printed for an ISO format. */
  lemma {:induction false} PrintIso(fmt: string, sep: char, x: Parts)
    requires IsIso(fmt, sep) && sep != '%' && PartsOk(x) && x.date.year != NOT_A_YEAR
    ensures Print(fmt, 0, x) == Done(IsoText(x, sep))
  {
    IsoChars(fmt, sep);
    hide YearText, Pad2, IsIso;
    assert Print(fmt, 17, x) == Done("");
    hide Print, PartsOk;
    PrintCommand(fmt, 15, x, "");
    PrintLiteral(fmt, 14, x, Pad2(x.S) + "");
    PrintCommand(fmt, 12, x, ":" + (Pad2(x.S) + ""));
    PrintLiteral(fmt, 11, x, Pad2(x.M) + (":" + (Pad2(x.S) + "")));
    PrintCommand(fmt, 9, x, ":" + (Pad2(x.M) + (":" + (Pad2(x.S) + ""))));
    PrintLiteral(fmt, 8, x, TimeText(x));
    PrintCommand(fmt, 6, x, [sep] + TimeText(x));
    PrintLiteral(fmt, 5, x, Pad2(x.date.day) + ([sep] + TimeText(x)));
    PrintCommand(fmt, 3, x, "-" + (Pad2(x.date.day) + ([sep] + TimeText(x))));
    PrintLiteral(fmt, 2, x, Pad2(x.date.month) + ("-" + (Pad2(x.date.day) + ([sep] + TimeText(x)))));
    PrintCommand(fmt, 0, x, "-" + (Pad2(x.date.month) + ("-" + (Pad2(x.date.day) + ([sep] + TimeText(x))))));
  }

  // ---- reading the printed text ----

  lemma {:induction false} Pad4Is(n: nat)
    ensures AllDigits(Pad4(n)) && |Pad4(n)| >= 4
    ensures n < 10000 ==> |Pad4(n)| == 4 && NatValue(Pad4(n)) == n
    ensures n >= 10000 ==> |Pad4(n)| >= 5
  {
    NatTextValue(n);
    NatTextLength(n);
    if n < 10 {
      ZeroBefore(NatText(n));
      ZeroBefore("0" + NatText(n));
      ZeroBefore("00" + NatText(n));
      assert "000" + NatText(n) == "0" + ("00" + NatText(n)) && "00" + NatText(n) == "0" + ("0" + NatText(n));
    } else if n < 100 {
      ZeroBefore(NatText(n));
      ZeroBefore("0" + NatText(n));
      assert "00" + NatText(n) == "0" + ("0" + NatText(n));
    } else if n < 1000 {
      ZeroBefore(NatText(n));
    }
  }

  lemma {:induction false} ZeroBefore(s: string)
    ensures NatValue("0" + s) == NatValue(s)
  {
    var z := "0" + s;
    if s == "" {
      assert z[..0] == "";
    } else {
      assert z[..|z| - 1] == "0" + s[..|s| - 1];
      ZeroBefore(s[..|s| - 1]);
    }
  }

  lemma {:induction false} NatTextLength(n: nat)
    ensures |NatText(n)| == if n < 10 then 1 else 1 + |NatText(n / 10)|
    ensures n < 100 ==> |NatText(n)| <= 2
    ensures 10 <= n < 100 ==> |NatText(n)| == 2
    ensures 100 <= n < 1000 ==> |NatText(n)| == 3
    ensures 1000 <= n < 10000 ==> |NatText(n)| == 4
    ensures n >= 10000 ==> |NatText(n)| >= 5
    decreases n
  {
    if n >= 10 { NatTextLength(n / 10); }
  }

  lemma {:induction false} DigitsEndAt(t: string, i: nat, j: nat, max: nat)
    requires i <= j <= |t| && j - i <= max && forall k :: i <= k < j ==> IsDigit(t[k])
    requires j - i == max || j == |t| || !IsDigit(t[j])
    ensures DigitsEnd(t, i, max) == j
    decreases j - i
  {
    if i < j { DigitsEndAt(t, i + 1, j, max - 1); }
  }

  lemma {:induction false} DecimalEndAt(t: string, i: nat, j: nat)
    requires i <= j <= |t| && forall k :: i <= k < j ==> IsDigit(t[k])
    ensures DecimalEnd(t, i, false, j - i) == j
    decreases j - i
  {
    if i < j { DecimalEndAt(t, i + 1, j); }
  }

  /** Two digits are read as the number they were printed for, by each of the three readers. */
  lemma {:induction false} TwoDigits(t: string, i: nat, n: nat)
    requires n < 100 && i + 2 <= |t| && t[i..i + 2] == Pad2(n)
    ensures ReadUnsigned(t, i, 1, 2) == ReadSigned(t, i, 1, 2) == ReadSeconds(t, i, 1, 2) == Some((n, i + 2))
  {
    var s := t[i..i + 2];
    assert t[i] == s[0] && t[i + 1] == s[1];
    Pad2Value(n);
    DigitsEndAt(t, i, i + 2, 2);
    DecimalEndAt(t, i, i + 2);
    SplitValue(s, 2);
    assert s[..2] == s;
  }

  lemma {:induction false} FourDigits(t: string, i: nat, n: nat)
    requires n < 10000 && i + 4 <= |t| && t[i..i + 4] == Pad4(n)
    ensures ReadSigned(t, i, 1, 4) == Some((n, i + 4))
  {
    Pad4Is(n);
    hide Pad4, NatValue;
    forall k | i <= k < i + 4
      ensures IsDigit(t[k])
    {
      assert t[k] == t[i..i + 4][k - i];
    }
    DigitsEndAt(t, i, i + 4, 4);
  }

  lemma {:induction false} TwoDigitNumber(command: char, t: string, i: nat, n: nat)
    requires IsField(command) && command != 'Y' && n < 100 && i + 2 <= |t| && t[i..i + 2] == Pad2(n)
    ensures ReadNumber(command, t, i) == Some((n, i + 2))
  {
    hide Pad2, ReadUnsigned, ReadSigned, ReadSeconds;
    TwoDigits(t, i, n);
  }

  lemma {:induction false} YearNumber(t: string, i: nat)
    requires i <= |t|
    ensures ReadNumber('Y', t, i) == ReadSigned(t, i, 1, 4)
  {
  }

  lemma {:induction false} ScanNumber(t: string, fmt: string, k: nat, i: nat, f: Fields, n: int, j: nat)
    requires k + 1 < |fmt| && i <= |t| && j <= |t| && fmt[k] == '%' && IsField(fmt[k + 1])
    requires ReadNumber(fmt[k + 1], t, i) == Some((n, j))
    ensures Scan(t, fmt, k, i, f) ==
            var f' := SetField(fmt[k + 1], f, n); if f'.None? then Failed else Scan(t, fmt, k + 2, j, f'.value)
  {
  }

  lemma {:induction false} ScanLiteral(t: string, fmt: string, k: nat, i: nat, f: Fields)
    requires k < |fmt| && i < |t| && fmt[k] == t[i] && fmt[k] != '%' && !IsSpace(fmt[k])
    ensures Scan(t, fmt, k, i, f) == Scan(t, fmt, k + 1, i + 1, f)
  {
  }

  /** A literal that does not match. */
  lemma {:induction false} ScanMismatch(t: string, fmt: string, k: nat, i: nat, f: Fields)
    requires k < |fmt| && i <= |t| && fmt[k] != '%' && !IsSpace(fmt[k]) && (i < |t| ==> t[i] != fmt[k])
    ensures Scan(t, fmt, k, i, f) == Failed
  {
  }

  lemma {:induction false} Piece(t: string, i: nat, x: string, y: string)
    requires i <= |t| && t[i..] == x + y
    ensures i + |x| <= |t| && t[i..i + |x|] == x && t[i + |x|..] == y && (|x| == 1 ==> t[i] == x[0])
  {
    var w := t[i..];
    assert t[i..i + |x|] == w[..|x|] && t[i + |x|..] == w[|x|..];
    if |x| == 1 { assert t[i] == w[0]; }
  }

  /** Where the parts of a text stand whose lengths are known. */
  lemma {:induction false} PiecePositions(t: string, y: string, m: string, d: string, sep: char, time: string)
    requires t == y + ("-" + (m + ("-" + (d + ([sep] + time)))))
    requires |y| == 4 && |m| == 2 && |d| == 2 && |time| == 8
    ensures |t| == 19 && t[0..4] == y && t[4] == '-' && t[5..7] == m
    ensures t[7] == '-' && t[8..10] == d && t[10] == sep && t[11..] == time
  {
    var t3 := d + ([sep] + time);
    var t2 := m + ("-" + t3);
    assert t[0..] == t;
    Piece(t, 0, y, "-" + t2);
    Piece(t, 4, "-", t2);
    Piece(t, 5, m, "-" + t3);
    Piece(t, 7, "-", t3);
    Piece(t, 8, d, [sep] + time);
    Piece(t, 10, [sep], time);
  }

  /** Where the parts of the text stand when the year has four digits. */
  lemma {:induction false} IsoPositions(x: Parts, sep: char)
    requires PartsOk(x) && 0 <= x.date.year <= 9999
    ensures var t := IsoText(x, sep);
      && |t| == 19 && t[0..4] == Pad4(x.date.year) && t[4] == '-' && t[5..7] == Pad2(x.date.month)
      && t[7] == '-' && t[8..10] == Pad2(x.date.day) && t[10] == sep && t[11..] == TimeText(x)
  {
    Pad4Is(x.date.year);
    hide Pad4;
    assert |TimeText(x)| == 8 && |Pad2(x.date.month)| == 2 && |Pad2(x.date.day)| == 2;
    hide Pad2, TimeText;
    PiecePositions(IsoText(x, sep), Pad4(x.date.year), Pad2(x.date.month), Pad2(x.date.day), sep, TimeText(x));
  }

  lemma {:induction false} TimePositions(x: Parts, t: string)
    requires PartsOk(x) && |t| == 19 && t[11..] == TimeText(x)
    ensures t[11..13] == Pad2(x.H) && t[13] == ':' && t[14..16] == Pad2(x.M) && t[16] == ':' && t[17..19] == Pad2(x.S)
  {
    hide Pad2;
    var w := t[11..];
    var w1 := Pad2(x.M) + (":" + (Pad2(x.S) + ""));
    assert w == Pad2(x.H) + (":" + w1);
    assert t[11..13] == w[..2] && t[13] == w[2] && t[14..19] == w[3..] == w1;
    assert t[14..16] == w1[..2] && t[16] == w1[2] && t[17..19] == w1[3..];
  }

  /** What the fields hold after the whole text was read. */
  function FieldsOf(x: Parts): Fields { Fields(x.date.year, x.date.month, x.date.day, x.H, x.M, x.S) }

  /** The date half of the text, read up to the separator. */
  lemma {:induction false} ScanDate(t: string, fmt: string, x: Parts)
    requires PartsOk(x) && 0 <= x.date.year <= 9999 && |t| >= 10
    requires t[0..4] == Pad4(x.date.year) && t[4] == '-' && t[5..7] == Pad2(x.date.month)
    requires t[7] == '-' && t[8..10] == Pad2(x.date.day)
    requires |fmt| >= 8 && fmt[..8] == "%Y-%m-%d"
    ensures Scan(t, fmt, 0, 0, NOTHING) ==
            Scan(t, fmt, 8, 10, NOTHING.(Y := x.date.year, m := x.date.month, d := x.date.day))
  {
    hide Scan, ReadNumber, ReadSigned, Pad4, Pad2;
    DateChars(fmt);
    FourDigits(t, 0, x.date.year);
    YearNumber(t, 0);
    TwoDigitNumber('m', t, 5, x.date.month);
    TwoDigitNumber('d', t, 8, x.date.day);
    var f1 := NOTHING.(Y := x.date.year);
    var f2 := f1.(m := x.date.month);
    ScanNumber(t, fmt, 0, 0, NOTHING, x.date.year, 4);
    ScanLiteral(t, fmt, 2, 4, f1);
    ScanNumber(t, fmt, 3, 5, f1, x.date.month, 7);
    ScanLiteral(t, fmt, 5, 7, f2);
    ScanNumber(t, fmt, 6, 8, f2, x.date.day, 10);
  }

  lemma {:induction false} TimeChars(fmt: string)
    requires |fmt| >= 17 && fmt[9..17] == "%H:%M:%S"
    ensures fmt[9] == '%' && fmt[10] == 'H' && fmt[11] == ':' && fmt[12] == '%' && fmt[13] == 'M' && fmt[14] == ':'
    ensures fmt[15] == '%' && fmt[16] == 'S'
  {
    assert forall k :: 9 <= k < 17 ==> fmt[k] == fmt[9..17][k - 9];
  }

  lemma {:induction false} DateChars(fmt: string)
    requires |fmt| >= 8 && fmt[..8] == "%Y-%m-%d"
    ensures fmt[0] == '%' && fmt[1] == 'Y' && fmt[2] == '-' && fmt[3] == '%' && fmt[4] == 'm' && fmt[5] == '-'
    ensures fmt[6] == '%' && fmt[7] == 'd'
  {
    assert forall k :: 0 <= k < 8 ==> fmt[k] == fmt[..8][k];
  }

  /** The time half, from behind the separator to the end of the text. */
  lemma {:induction false} ScanTime(t: string, fmt: string, x: Parts, f: Fields)
    requires PartsOk(x) && |t| == 19 && t[11..] == TimeText(x) && |fmt| >= 17 && fmt[9..17] == "%H:%M:%S"
    requires f.H == NOT_AN_HOUR && f.M == NOT_A_MINUTE && f.s == NOT_A_SECOND
    ensures Scan(t, fmt, 9, 11, f) == Scan(t, fmt, 17, 19, f.(H := x.H, M := x.M, s := x.S))
  {
    hide TimeText, Pad2, Scan, ReadNumber;
    TimePositions(x, t);
    TimeChars(fmt);
    TwoDigitNumber('H', t, 11, x.H);
    TwoDigitNumber('M', t, 14, x.M);
    TwoDigitNumber('S', t, 17, x.S);
    var f1 := f.(H := x.H);
    var f2 := f1.(M := x.M);
    ScanNumber(t, fmt, 9, 11, f, x.H, 13);
    ScanLiteral(t, fmt, 11, 13, f1);
    ScanNumber(t, fmt, 12, 14, f1, x.M, 16);
    ScanLiteral(t, fmt, 14, 16, f2);
    ScanNumber(t, fmt, 15, 17, f2, x.S, 19);
  }

  lemma {:induction false} InstantIs(x: Parts)
    requires PartsOk(x) && 0 <= x.date.year <= 9999
    ensures Instant(FieldsOf(x)) == if Ok(x.date) then Done(SumOf(x)) else Failed
  {
    hide ToDays, Ok;
  }

  /** The separator of the format meets the separator of the text. */
  lemma {:induction false} ScanSeparator(t: string, fmt: string, sep: char, x: Parts, f: Fields)
    requires PartsOk(x) && |fmt| >= 9 && fmt[8] == sep && |t| == 19 && t[10] == sep && t[11..] == TimeText(x)
    requires sep == ' ' || sep == 'T'
    ensures Scan(t, fmt, 8, 10, f) == Scan(t, fmt, 9, 11, f)
  {
    assert t[11] == t[11..][0];
    assert IsDigit(t[11]);
    if sep == ' ' {
      assert SkipSpace(t, 11) == 11 && SkipSpace(t, 10) == 11;
    }
  }

  /** What is read of a text with a four-digit year by a format that starts with the one that printed it. */
  lemma {:induction false} ScanSame(fmt: string, sep: char, x: Parts)
    requires |fmt| >= 17 && IsIso(fmt[..17], sep) && (sep == ' ' || sep == 'T')
    requires PartsOk(x) && 0 <= x.date.year <= 9999
    ensures var t := IsoText(x, sep);
      |t| == 19 && Scan(t, fmt, 0, 0, NOTHING) == Scan(t, fmt, 17, 19, FieldsOf(x))
  {
    var t := IsoText(x, sep);
    IsoPositions(x, sep);
    IsoChars(fmt[..17], sep);
    assert fmt[..8] == "%Y-%m-%d" && fmt[9..17] == "%H:%M:%S";
    ScanDate(t, fmt, x);
    var f := NOTHING.(Y := x.date.year, m := x.date.month, d := x.date.day);
    ScanSeparator(t, fmt, sep, x, f);
    ScanTime(t, fmt, x, f);
  }

  /** A text with a four-digit year is read back by the format that printed it, if the date exists. */
  lemma {:induction false} ParseSame(fmt: string, sep: char, x: Parts)
    requires IsIso(fmt, sep) && (sep == ' ' || sep == 'T') && PartsOk(x) && 0 <= x.date.year <= 9999
    ensures ParseOne(IsoText(x, sep), fmt) == if Ok(x.date) then Done(SumOf(x)) else Failed
  {
    assert fmt[..17] == fmt;
    ScanSame(fmt, sep, x);
    assert Scan(IsoText(x, sep), fmt, 17, 19, FieldsOf(x)) == Done(FieldsOf(x));
    hide Scan, Instant, SumOf, Ok, PartsOk, IsoText;
    InstantIs(x);
  }

  // ---- the formats that do not fit ----

  /** With a blank in the format and a 'T' in the text, the hour is not found. */
  lemma {:induction false} BlankMeetsT(t: string, fmt: string, x: Parts)
    requires PartsOk(x) && 0 <= x.date.year <= 9999 && t == IsoText(x, 'T') && IsIso(fmt, ' ')
    ensures ParseOne(t, fmt) == Failed
  {
    IsoPositions(x, 'T');
    IsoChars(fmt, ' ');
    assert fmt[..8] == "%Y-%m-%d";
    ScanDate(t, fmt, x);
    hide IsoText, IsIso, PartsOk;
    assert SkipSpace(t, 10) == 10;
    assert ReadUnsigned(t, 10, 1, 2) == None;
  }

  /** With a 'T' in the format and a blank in the text, the separator does not match. */
  lemma {:induction false} TMeetsBlank(t: string, fmt: string, x: Parts)
    requires PartsOk(x) && 0 <= x.date.year <= 9999 && t == IsoText(x, ' ') && |fmt| >= 17 && IsIso(fmt[..17], 'T')
    ensures ParseOne(t, fmt) == Failed
  {
    IsoPositions(x, ' ');
    IsoChars(fmt[..17], 'T');
    assert fmt[..8] == "%Y-%m-%d";
    ScanDate(t, fmt, x);
    hide IsoText, IsIso, PartsOk;
    ScanMismatch(t, fmt, 8, 10, NOTHING.(Y := x.date.year, m := x.date.month, d := x.date.day));
  }

  /** A literal behind the seconds finds the text at its end. */
  lemma {:induction false} TextEnds(t: string, fmt: string, sep: char, x: Parts)
    requires PartsOk(x) && 0 <= x.date.year <= 9999 && (sep == ' ' || sep == 'T') && t == IsoText(x, sep)
    requires |fmt| >= 18 && IsIso(fmt[..17], sep) && fmt[17] == 'Z'
    ensures ParseOne(t, fmt) == Failed
  {
    ScanSame(fmt, sep, x);
    hide IsoText;
    ScanMismatch(t, fmt, 17, 19, FieldsOf(x));
  }

  /** The number of a month is no name. */
  lemma {:induction false} MonthNameFails(t: string, fmt: string, sep: char, x: Parts)
    requires PartsOk(x) && 0 <= x.date.year <= 9999 && t == IsoText(x, sep) && |fmt| >= 5 && fmt[..5] == "%Y-%b"
    ensures ParseOne(t, fmt) == Failed
  {
    IsoPositions(x, sep);
    assert t[5] == t[5..7][0];
    hide IsoText;
    assert forall k :: 0 <= k < 5 ==> fmt[k] == fmt[..5][k];
    FourDigits(t, 0, x.date.year);
    hide ReadSigned, Pad4, Pad2;
    var f := NOTHING.(Y := x.date.year);
    assert ReadNumber('Y', t, 0) == Some((x.date.year, 4));
    ScanNumber(t, fmt, 0, 0, NOTHING, x.date.year, 4);
    ScanLiteral(t, fmt, 2, 4, f);
    assert Scan(t, fmt, 3, 5, f) == Other('b', t, 5);
  }

  /** Every printed text starts with four digits, the sign of a negative year apart. */
  lemma {:induction false} YearDigits(y: int)
    ensures var s := YearText(y);
      if y < 0 then |s| >= 5 && s[0] == '-' && AllDigits(s[1..]) else |s| >= 4 && AllDigits(s)
    ensures y > 9999 ==> |YearText(y)| >= 5
  {
    if y < 0 { Pad4Is(-y); assert YearText(y)[1..] == Pad4(-y); } else { Pad4Is(y); }
  }

  /** A month first: its two characters are taken from the year, and no '/' follows. */
  lemma {:induction false} MonthFirstFails(t: string, fmt: string, y: int, rest: string)
    requires t == YearText(y) + rest && |fmt| >= 3 && fmt[0] == '%' && fmt[1] == 'm' && fmt[2] == '/'
    ensures ParseOne(t, fmt) == Failed
  {
    YearDigits(y);
    var s := YearText(y);
    hide YearText;
    assert forall k :: 0 <= k < |s| ==> t[k] == s[k];
    if y < 0 {
      assert t[1] == s[1..][0] && t[2] == s[1..][1];
      DigitsEndAt(t, 1, 2, 1);
    } else {
      DigitsEndAt(t, 0, 2, 2);
    }
    var n := ReadSigned(t, 0, 1, 2);
    assert n.Some? && n.value.1 == 2;
    ScanNumber(t, fmt, 0, 0, NOTHING, n.value.0, 2);
    var f' := SetField('m', NOTHING, n.value.0);
    ScanMismatch(t, fmt, 2, 2, f'.value);
  }

  /** A year outside 0..9999 leaves a digit, or has taken the sign for one, where the '-' should be. */
  lemma {:induction false} OddYearFails(t: string, fmt: string, y: int, rest: string)
    requires t == YearText(y) + rest && (y < 0 || y > 9999)
    requires |fmt| >= 3 && fmt[0] == '%' && fmt[1] == 'Y' && fmt[2] == '-'
    ensures ParseOne(t, fmt) == Failed
  {
    YearDigits(y);
    var s := YearText(y);
    hide YearText;
    assert forall k :: 0 <= k < |s| ==> t[k] == s[k];
    if y < 0 {
      assert forall k :: 1 <= k < |s| ==> t[k] == s[1..][k - 1];
      DigitsEndAt(t, 1, 4, 3);
    } else {
      DigitsEndAt(t, 0, 4, 4);
    }
    var n := ReadSigned(t, 0, 1, 4);
    assert n.Some? && n.value.1 == 4;
    ScanNumber(t, fmt, 0, 0, NOTHING, n.value.0, 4);
    var f' := SetField('Y', NOTHING, n.value.0);
    ScanMismatch(t, fmt, 2, 4, f'.value);
  }

  // ---- the round trip ----

  /** The text that `datetime_s` (blank) or `datetime_s_json` ('T') prints for an instant; nothing when the
      year's 16 bits are no year. */
  function InstantText(tp: int, sep: char): string {
    PartsOfIs(tp);
    if PartsOf(tp).date.year == NOT_A_YEAR then "" else IsoText(PartsOf(tp), sep)
  }

  lemma {:induction false} InstantPrinted(tp: int)
    ensures PartsOk(PartsOf(tp))
    ensures Print(ISO_BLANK, 0, PartsOf(tp)) == Done(InstantText(tp, ' '))
    ensures Print(ISO_T, 0, PartsOf(tp)) == Done(InstantText(tp, 'T'))
  {
    hide Print, PartsOf, PartsOk, IsoText, IsIso;
    PartsOfIs(tp);
    IsoFormatsAre();
    Printed(ISO_BLANK, ' ', PartsOf(tp));
    Printed(ISO_T, 'T', PartsOf(tp));
  }

  lemma {:induction false} IsoFormatsAre()
    ensures IsIso(ISO_BLANK, ' ') && IsIso(ISO_T, 'T')
  {
  }

  lemma {:induction false} Printed(fmt: string, sep: char, x: Parts)
    requires IsIso(fmt, sep) && (sep == ' ' || sep == 'T') && PartsOk(x)
    ensures Print(fmt, 0, x) == Done(if x.date.year == NOT_A_YEAR then "" else IsoText(x, sep))
  {
    hide Print, PartsOk, IsoText;
    if x.date.year == NOT_A_YEAR {
      IsoChars(fmt, sep);
      NoYear(fmt, x);
    } else {
      PrintIso(fmt, sep, x);
    }
  }

  lemma {:induction false} NoYear(fmt: string, x: Parts)
    requires PartsOk(x) && x.date.year == NOT_A_YEAR && |fmt| >= 2 && fmt[0] == '%' && fmt[1] == 'Y'
    ensures Print(fmt, 0, x) == Done("")
  {
  }

  lemma {:induction false} FirstFit(t: string, formats: seq<string>, n: nat)
    requires n < |formats| && ParseOne(t, formats[n]) != Failed
    requires forall k :: 0 <= k < n ==> ParseOne(t, formats[k]) == Failed
    ensures ParseFirst(t, formats) == ParseOne(t, formats[n])
    decreases n
  {
    hide ParseOne;
    if n > 0 {
      assert forall k :: 0 <= k < n - 1 ==> formats[1..][k] == formats[k + 1];
      FirstFit(t, formats[1..], n - 1);
    }
  }

  lemma {:induction false} NoFit(t: string, formats: seq<string>)
    requires forall k :: 0 <= k < |formats| ==> ParseOne(t, formats[k]) == Failed
    ensures ParseFirst(t, formats) == Failed
    decreases |formats|
  {
    hide ParseOne;
    if formats != [] {
      assert forall k :: 0 <= k < |formats| - 1 ==> formats[1..][k] == formats[k + 1];
      NoFit(t, formats[1..]);
    }
  }

  ghost predicate StartsLike(fmt: string, command: char, literal: char) {
    |fmt| >= 3 && fmt[0] == '%' && fmt[1] == command && fmt[2] == literal
  }

  /** What matters about the default formats. */
  ghost predicate DefaultShape(formats: seq<string>) {
    && |formats| == 5
    && StartsLike(formats[0], 'm', '/') && (forall k :: 1 <= k < 5 ==> StartsLike(formats[k], 'Y', '-'))
    && IsIso(formats[1], ' ') && IsIso(formats[2], 'T')
    && |formats[3]| == 18 && IsIso(formats[3][..17], 'T') && formats[3][17] == 'Z'
    && |formats[4]| >= 5 && formats[4][..5] == "%Y-%b"
  }

  /** The two formats behind the ISO ones fit no printed text. */
  lemma {:induction false} LastTwoFail(formats: seq<string>, x: Parts, sep: char)
    requires DefaultShape(formats) && PartsOk(x) && 0 <= x.date.year <= 9999 && (sep == ' ' || sep == 'T')
    ensures ParseOne(IsoText(x, sep), formats[3]) == ParseOne(IsoText(x, sep), formats[4]) == Failed
  {
    hide ParseOne, IsoText, PartsOk, IsIso, StartsLike;
    MonthNameFails(IsoText(x, sep), formats[4], sep, x);
    if sep == ' ' {
      TMeetsBlank(IsoText(x, sep), formats[3], x);
    } else {
      TextEnds(IsoText(x, sep), formats[3], sep, x);
    }
  }

  /** Of the two ISO formats one is the printer's, and the other does not fit. */
  lemma {:induction false} IsoFormats(formats: seq<string>, x: Parts, sep: char) returns (n: nat)
    requires DefaultShape(formats) && PartsOk(x) && 0 <= x.date.year <= 9999 && (sep == ' ' || sep == 'T')
    ensures (n == 1 || n == 2) && ParseOne(IsoText(x, sep), formats[3 - n]) == Failed
    ensures ParseOne(IsoText(x, sep), formats[n]) == if Ok(x.date) then Done(SumOf(x)) else Failed
  {
    hide ParseOne, IsoText, PartsOk, SumOf, Ok, StartsLike;
    if sep == ' ' {
      n := 1;
      assert formats[2][..17] == formats[2];
      ParseSame(formats[1], ' ', x);
      TMeetsBlank(IsoText(x, sep), formats[2], x);
    } else {
      n := 2;
      ParseSame(formats[2], 'T', x);
      BlankMeetsT(IsoText(x, sep), formats[1], x);
    }
  }

  lemma {:induction false} ParseFourDigits(formats: seq<string>, x: Parts, sep: char)
    requires DefaultShape(formats) && PartsOk(x) && 0 <= x.date.year <= 9999 && (sep == ' ' || sep == 'T')
    requires ParseOne(IsoText(x, sep), formats[0]) == Failed
    ensures ParseFirst(IsoText(x, sep), formats) == if Ok(x.date) then Done(SumOf(x)) else Failed
  {
    hide ParseOne, ParseFirst, IsoText, PartsOk, SumOf, Ok, IsIso, StartsLike;
    var t := IsoText(x, sep);
    var n := IsoFormats(formats, x, sep);
    if Ok(x.date) {
      FirstFit(t, formats, n);
    } else {
      LastTwoFail(formats, x, sep);
      NoFit(t, formats);
    }
  }

  lemma {:induction false} ParseOddYear(formats: seq<string>, t: string, y: int, rest: string)
    requires DefaultShape(formats) && t == YearText(y) + rest && (y < 0 || y > 9999)
    requires ParseOne(t, formats[0]) == Failed
    ensures ParseFirst(t, formats) == Failed
  {
    hide YearText, ParseOne, ParseFirst, IsIso;
    forall k | 1 <= k < 5
      ensures ParseOne(t, formats[k]) == Failed
    {
      OddYearFails(t, formats[k], y, rest);
    }
    NoFit(t, formats);
  }

  /** The text after the year. */
  function AfterYear(x: Parts, sep: char): string
    requires PartsOk(x)
  {
    "-" + (Pad2(x.date.month) + ("-" + (Pad2(x.date.day) + ([sep] + TimeText(x)))))
  }

  predicate FourDigitDate(x: Date) { 0 <= x.year <= 9999 && Ok(x) }

  lemma {:induction false} ParseWith(formats: seq<string>, x: Parts, sep: char)
    requires DefaultShape(formats) && PartsOk(x) && (sep == ' ' || sep == 'T')
    ensures ParseFirst(IsoText(x, sep), formats) == if FourDigitDate(x.date) then Done(SumOf(x)) else Failed
  {
    var rest, y := AfterYear(x, sep), x.date.year;
    var t := IsoText(x, sep);
    assert t == YearText(y) + rest;
    hide IsoText, AfterYear, PartsOk, YearText, ParseOne, ParseFirst, SumOf, Ok, IsIso;
    MonthFirstFails(t, formats[0], y, rest);
    hide StartsLike;
    if 0 <= y <= 9999 {
      ParseFourDigits(formats, x, sep);
    } else {
      ParseOddYear(formats, t, y, rest);
    }
  }

  lemma {:induction false} DefaultFormats()
    ensures DefaultShape(DATETIME_FORMATS)
  {
    assert DATETIME_FORMATS[3][..17] == ISO_T;
  }

  lemma {:induction false} EmptyFails(formats: seq<string>)
    requires DefaultShape(formats)
    ensures ParseFirst("", formats) == Failed
  {
    hide IsIso;
    forall k | 0 <= k < 5
      ensures ParseOne("", formats[k]) == Failed
    {
      assert ReadSigned("", 0, 1, 2) == None && ReadSigned("", 0, 1, 4) == None;
      assert ReadNumber(formats[k][1], "", 0) == None;
    }
    NoFit("", formats);
  }

  /** No printed text starts with a blank. */
  lemma {:induction false} Untrimmed(x: Parts, sep: char)
    requires PartsOk(x)
    ensures TrimLeft(IsoText(x, sep)) == IsoText(x, sep)
  {
    YearDigits(x.date.year);
    hide YearText, TimeText, Pad2;
    assert IsoText(x, sep)[0] == YearText(x.date.year)[0];
  }

  lemma {:induction false} RoundTripWith(formats: seq<string>, tp: int, sep: char)
    requires DefaultShape(formats) && (sep == ' ' || sep == 'T')
    ensures ParseFirst(TrimLeft(InstantText(tp, sep)), formats)
      == if FourDigitDate(PartsOf(tp).date) then Done(SumOf(PartsOf(tp))) else Failed
  {
    hide IsoText, PartsOf, PartsOk, SumOf, ParseFirst, DefaultShape, Ok, ShortDate;
    PartsOfIs(tp);
    if PartsOf(tp).date.year == NOT_A_YEAR {
      EmptyFails(formats);
    } else {
      Untrimmed(PartsOf(tp), sep);
      hide TrimLeft;
      ParseWith(formats, PartsOf(tp), sep);
    }
  }

  /** The text printed for an instant, read with the default formats, is the instant of its date with the year
      in 16 bits, if that is a date of a four-digit year; otherwise no format fits. */
  lemma {:induction false} ReadBack(tp: int, sep: char)
    requires sep == ' ' || sep == 'T'
    ensures ParseFirst(TrimLeft(InstantText(tp, sep)), DATETIME_FORMATS)
      == if FourDigitDate(PartsOf(tp).date) then Done(SumOf(PartsOf(tp))) else Failed
  {
    DefaultFormats();
    hide InstantText, ParseFirst, DefaultShape, TrimLeft, FourDigitDate, PartsOf, SumOf;
    RoundTripWith(DATETIME_FORMATS, tp, sep);
  }

  /** The instant itself comes back exactly when its year has four digits. */
  lemma {:induction false} RoundTrip(tp: int, sep: char)
    requires sep == ' ' || sep == 'T'
    ensures ParseFirst(TrimLeft(InstantText(tp, sep)), DATETIME_FORMATS) == Done(tp)
      <==> 0 <= FromDays(tp / 86400).year <= 9999
  {
    hide InstantText, ParseFirst, TrimLeft, PartsOf, SumOf, FromDays, ToDays, Ok, ShortYear;
    ReadBack(tp, sep);
    PartsOfIs(tp);
  }

  /** The first instant of the year 67556 is printed as that of 2020, and read as that. */
  lemma {:induction false} YearCut()
    ensures var tp, cut := ToDays(Date(67556, 1, 1)) * 86400, ToDays(Date(2020, 1, 1)) * 86400;
      tp != cut && ParseFirst(TrimLeft(InstantText(tp, ' ')), DATETIME_FORMATS) == Done(cut)
  {
    hide InstantText, ParseFirst, TrimLeft, ToDays, FromDays, Ok, ShortYear, PartsOf;
    var x := Date(67556, 1, 1);
    FirstDays();
    DateRoundTrip(x);
    Midnight(ToDays(x), ToDays(Date(2020, 1, 1)));
    DayOf(ToDays(x) * 86400);
    ReadBack(ToDays(x) * 86400, ' ');
  }

  lemma {:induction false} FirstDays()
    ensures Ok(Date(67556, 1, 1)) && Ok(Date(2020, 1, 1)) && ShortYear(67556) == 2020
    ensures ToDays(Date(67556, 1, 1)) != ToDays(Date(2020, 1, 1))
  {
  }

  lemma {:induction false} Midnight(day: int, other: int)
    ensures day * 86400 / 86400 == day && day * 86400 % 86400 == 0
    ensures day * 86400 == other * 86400 ==> day == other
  {
  }
}
