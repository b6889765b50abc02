/**
 The format engine for dates (suite/external/date/date.h, `to_stream` and `from_stream`) for the
 commands %Y %m %d %H %M %S and literal characters. Any other command is `Unmodelled`.
 */
module DateText {
  import opened Text
  import opened Decimal
  import opened Calendar

  /** What the parser has read so far; a field holds its "not a value" until it is set. */
  datatype Fields = Fields(Y: int, m: int, d: int, H: int, M: int, s: int)

  const NOT_A_YEAR: int := -32768
  const NOT_A_MONTH: int := 0
  const NOT_A_DAY: int := 0
  const NOT_AN_HOUR: int := -0x8000_0000
  const NOT_A_MINUTE: int := -0x8000_0000
  const NOT_A_SECOND: int := -0x8000_0000_0000_0000

  const NOTHING: Fields := Fields(NOT_A_YEAR, NOT_A_MONTH, NOT_A_DAY, NOT_AN_HOUR, NOT_A_MINUTE, NOT_A_SECOND)

  /** The stream failed, the format uses a command outside this model, or there is a result. */
  datatype Outcome<+T> = Done(value: T) | Failed | Unmodelled

  /** A broken-down instant. */
  datatype Parts = Parts(date: Date, H: int, M: int, S: int)

  predicate PartsOk(x: Parts) {
    1 <= x.date.month <= 12 && 1 <= x.date.day <= 31 && 0 <= x.H < 24 && 0 <= x.M < 60 && 0 <= x.S < 60
  }

  // ---- printing ----

  /** Width 4, filled with zeros. */
  function Pad4(n: nat): string {
    if n < 10 then "000" + NatText(n)
    else if n < 100 then "00" + NatText(n)
    else if n < 1000 then "0" + NatText(n)
    else NatText(n)
  }

  /** `os << year`: the sign comes before the filling zeros. */
  function YearText(y: int): string {
    if y < 0 then "-" + Pad4(-y) else Pad4(y)
  }

  function FieldText(command: char, x: Parts): Outcome<string>
    requires PartsOk(x)
  {
    match command
    case 'Y' => Done(YearText(x.date.year))
    case 'm' => Done(Pad2(x.date.month))
    case 'd' => Done(Pad2(x.date.day))
    case 'H' => Done(Pad2(x.H))
    case 'M' => Done(Pad2(x.M))
    case 'S' => Done(Pad2(x.S))
    case '%' => Done("%")
    case _ => Unmodelled
  }

  /** The text of the rest of a format, from `k` on. What is no year makes the stream fail, and a stream that
      has failed takes no more. */
  function Print(fmt: string, k: nat, x: Parts): (r: Outcome<string>)
    requires k <= |fmt| && PartsOk(x)
    ensures r != Failed
    decreases |fmt| - k
  {
    if k == |fmt| then Done("")
    else if fmt[k] != '%' then
      var rest := Print(fmt, k + 1, x);
      if rest.Done? then Done([fmt[k]] + rest.value) else rest
    else if k + 1 == |fmt| then Unmodelled
    else if fmt[k + 1] == 'Y' && x.date.year == NOT_A_YEAR then Done("")
    else
      var field := FieldText(fmt[k + 1], x);
      var rest := Print(fmt, k + 2, x);
      if field.Done? && rest.Done? then Done(field.value + rest.value) else Unmodelled
  }

  /** The loop of `to_stream`: characters are copied, a '%' makes the next one a command. */
  method ToStream(fmt: string, x: Parts) returns (r: Outcome<string>)
    requires PartsOk(x)
    ensures r == Print(fmt, 0, x)
  {
    hide FieldText;
    var os, command, i := "", false, 0;
    assert Print(fmt, 0, x).Done? ==> "" + Print(fmt, 0, x).value == Print(fmt, 0, x).value;
    while i < |fmt|
      invariant i <= |fmt| && (command ==> i > 0 && fmt[i - 1] == '%')
      invariant var rest := Print(fmt, if command then i - 1 else i, x);
        Print(fmt, 0, x) == if rest.Done? then Done(os + rest.value) else rest
    {
      ghost var k := if command then i - 1 else i;
      ghost var rest := Print(fmt, k, x);
      if command {
        if fmt[i] == 'Y' && x.date.year == NOT_A_YEAR {
          assert os + "" == os;
          return Done(os);
        }
        var field := FieldText(fmt[i], x);
        if !field.Done? {
          return Unmodelled;
        }
        ghost var after := Print(fmt, i + 1, x);
        if after.Done? { Assoc(os, field.value, after.value); }
        os := os + field.value;
        command := false;
      } else if fmt[i] == '%' {
        command := true;
      } else {
        ghost var after := Print(fmt, i + 1, x);
        if after.Done? { Assoc(os, [fmt[i]], after.value); }
        os := os + [fmt[i]];
      }
      i := i + 1;
    }
    if command {
      return Unmodelled;
    }
    assert os + "" == os;
    return Done(os);
  }

  // ---- reading numbers ----

  /** One past the digits from `i` on, at most `max` of them. */
  function DigitsEnd(t: string, i: nat, max: nat): (j: nat)
    requires i <= |t|
    ensures i <= j <= |t| && j - i <= max
    decreases max
  {
    if i < |t| && max > 0 && IsDigit(t[i]) then DigitsEnd(t, i + 1, max - 1) else i
  }

  /** `read_unsigned`: between `min` and `max` digits; the value and the position after them. */
  function ReadUnsigned(t: string, i: nat, min: nat, max: nat): Option<(int, nat)>
    requires i <= |t|
  {
    var j := DigitsEnd(t, i, max);
    if j - i < min then None else Some((NatValue(t[i..j]), j))
  }

  /** `read_signed`: a sign counts as one of the `max` characters. */
  function ReadSigned(t: string, i: nat, min: nat, max: nat): Option<(int, nat)>
    requires i <= |t| && min >= 1 && max >= 2
  {
    if i < |t| && (IsDigit(t[i]) || t[i] == '-' || t[i] == '+') then
      if IsDigit(t[i]) then ReadUnsigned(t, i, min, max)
      else
        var r := ReadUnsigned(t, i + 1, min, max - 1);
        if r.Some? && t[i] == '-' then Some((-r.value.0, r.value.1)) else r
    else None
  }

  /** One past the digits, with at most one dot, from `i` on; at most `max` characters. */
  function DecimalEnd(t: string, i: nat, dot: bool, max: nat): (j: nat)
    requires i <= |t|
    ensures i <= j <= |t| && j - i <= max
    decreases max
  {
    if i < |t| && max > 0 && (IsDigit(t[i]) || (t[i] == '.' && !dot))
    then DecimalEnd(t, i + 1, dot || t[i] == '.', max - 1) else i
  }

  /** `read_long_double`, rounded to whole seconds. */
  function ReadSeconds(t: string, i: nat, min: nat, max: nat): Option<(int, nat)>
    requires i <= |t|
  {
    var j := DecimalEnd(t, i, false, max);
    if j - i < min then None else Some((RoundHalfEven(NumeralValue(t[i..j])), j))
  }

  method ReadUnsignedLoop(t: string, i: nat, min: nat, max: nat) returns (r: Option<(int, nat)>)
    requires i <= |t| && max >= 1
    ensures r == ReadUnsigned(t, i, min, max)
  {
    hide NatValue, DigitValue;
    var x, count, j := 0, 0, i;
    NatValueNone(t, i);
    while j < |t| && IsDigit(t[j])
      invariant i <= j <= |t| && count == j - i < max
      invariant x == NatValue(t[i..j]) && DigitsEnd(t, i, max) == DigitsEnd(t, j, max - count)
      decreases |t| - j
    {
      NatValueNext(t, i, j);
      x := 10 * x + DigitValue(t[j]);
      count := count + 1;
      j := j + 1;
      if count == max {
        break;
      }
    }
    if count < min {
      return None;
    }
    return Some((x, j));
  }

  /** The number read is its whole part and its fraction, the first dot standing at `p` if at all. */
  lemma {:induction false} DecimalValue(t: string, i: nat, p: nat, j: nat, whole: nat, f: nat, fcount: nat)
    requires i <= p <= j <= |t| && (forall k :: i <= k < p ==> t[k] != '.') && whole == NatValue(t[i..p])
    requires if p < j then t[p] == '.' && fcount == j - p - 1 && f == NatValue(t[p + 1..j]) else f == 0
    ensures NumeralValue(t[i..j]) == whole as real + f as real / TenTo(fcount)
  {
    var s := t[i..j];
    SplitValue(s, p - i);
    assert s[..p - i] == t[i..p];
    if p < j {
      assert s[p - i + 1..] == t[p + 1..j];
      Quotient(t[p + 1..j]);
      hide FractionValue, TenTo, NumeralValue, NatValue;
    } else {
      hide FractionValue, TenTo, NumeralValue, NatValue;
      assert f as real / TenTo(fcount) == 0.0;
    }
  }

  /** The loop of `read_long_double`: the digits before and after the dot, collected apart. */
  method ReadDecimal(t: string, i: nat, max: nat)
    returns (j: nat, whole: nat, f: nat, fcount: nat, ghost p: nat)
    requires i <= |t| && max >= 1
    ensures i <= p <= j == DecimalEnd(t, i, false, max) && (forall k :: i <= k < p ==> t[k] != '.')
    ensures whole == NatValue(t[i..p])
    ensures if p < j then t[p] == '.' && fcount == j - p - 1 && f == NatValue(t[p + 1..j]) else f == 0
  {
    hide NatValue, DigitValue;
    var parsingFraction := false;
    j, whole, f, fcount, p := i, 0, 0, 0, i;
    var count := 0;
    NatValueNone(t, i);
    while j < |t| && (IsDigit(t[j]) || (t[j] == '.' && !parsingFraction))
      invariant i <= p <= j <= |t| && count == j - i < max
      invariant DecimalEnd(t, i, false, max) == DecimalEnd(t, j, parsingFraction, max - count)
      invariant whole == NatValue(t[i..p])
      invariant if parsingFraction then p < j && t[p] == '.' && fcount == j - p - 1 && f == NatValue(t[p + 1..j])
        else f == fcount == 0 && p == j
      invariant forall k :: i <= k < p ==> t[k] != '.'
      decreases |t| - j
    {
      if t[j] == '.' {
        parsingFraction := true;
        NatValueNone(t, j + 1);
      } else if !parsingFraction {
        NatValueNext(t, i, j);
        whole := 10 * whole + DigitValue(t[j]);
        p := j + 1;
      } else {
        NatValueNext(t, p + 1, j);
        f := 10 * f + DigitValue(t[j]);
        fcount := fcount + 1;
      }
      count := count + 1;
      j := j + 1;
      if count == max {
        break;
      }
    }
  }

  method ReadSecondsLoop(t: string, i: nat, min: nat, max: nat) returns (r: Option<(int, nat)>)
    requires i <= |t| && max >= 1
    ensures r == ReadSeconds(t, i, min, max)
  {
    hide NumeralValue, TenTo, RoundHalfEven;
    ghost var p;
    var j, whole, f, fcount;
    j, whole, f, fcount, p := ReadDecimal(t, i, max);
    if j - i < min {
      return None;
    }
    DecimalValue(t, i, p, j, whole, f, fcount);
    var value := whole as real + f as real / TenTo(fcount);
    return Some((RoundHalfEven(value), j));
  }

  /** The value of a number whose first dot is at `p`, or that has none. */
  lemma {:induction false} SplitValue(s: string, p: nat)
    requires p <= |s| && (p < |s| ==> s[p] == '.') && forall k :: 0 <= k < p ==> s[k] != '.'
    ensures NumeralValue(s) == NatValue(s[..p]) as real + (if p < |s| then FractionValue(s[p + 1..]) else 0.0)
  {
    FindIs(s, '.', 0, p);
    assert s[..|s|] == s;
  }
}
