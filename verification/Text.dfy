/** Characters of the "C" locale and decimal numerals, shared by every scanner and printer. */
module Text {

  datatype Option<+T> = None | Some(value: T)

  predicate IsDigit(c: char) { '0' <= c <= '9' }

  predicate IsAlpha(c: char) { 'a' <= c <= 'z' || 'A' <= c <= 'Z' }

  /** `std::isspace` in the "C" locale: blank, \t, \n, \v, \f, \r. */
  predicate IsSpace(c: char) { c == ' ' || '\t' <= c <= '\r' }

  predicate AllDigits(s: string) { forall i :: 0 <= i < |s| ==> IsDigit(s[i]) }

  /** What a digit is worth; nothing else is worth anything. */
  function DigitValue(c: char): (d: nat)
    ensures d <= 9
  {
    if IsDigit(c) then c as int - '0' as int else 0
  }

  function DigitChar(d: nat): (c: char)
    requires d <= 9
    ensures IsDigit(c) && DigitValue(c) == d
  {
    '0' + d as char
  }

  function Pow10(n: nat): (p: nat)
    ensures p >= 1
  {
    if n == 0 then 1 else 10 * Pow10(n - 1)
  }

  /** The number a string of digits denotes, most significant digit first. */
  function NatValue(s: string): nat {
    if s == "" then 0 else 10 * NatValue(s[..|s| - 1]) + DigitValue(s[|s| - 1])
  }

  lemma {:induction false} NatValueNext(t: string, i: nat, j: nat)
    requires i <= j < |t|
    ensures NatValue(t[i..j + 1]) == 10 * NatValue(t[i..j]) + DigitValue(t[j])
  {
    var s := t[i..j + 1];
    assert s[..|s| - 1] == t[i..j] && s[|s| - 1] == t[j];
  }

  lemma {:induction false} NatValueNone(t: string, i: nat)
    requires i <= |t|
    ensures NatValue(t[i..i]) == 0
  {
    assert t[i..i] == "";
  }

  /** What an integer inserted into a stream of the "C" locale looks like. */
  function NatText(n: nat): (s: string)
    ensures |s| >= 1 && AllDigits(s)
  {
    if n < 10 then [DigitChar(n)] else NatText(n / 10) + [DigitChar(n % 10)]
  }

  lemma {:induction false} NatTextValue(n: nat)
    ensures NatValue(NatText(n)) == n
  {
    var s := NatText(n);
    if n < 10 {
      assert s[..|s| - 1] == "";
    } else {
      assert s[..|s| - 1] == NatText(n / 10);
      NatTextValue(n / 10);
    }
  }

  /** `setfill('0') << setw(2)` for a value below 100. */
  function Pad2(n: nat): (s: string)
    requires n < 100
    ensures |s| == 2 && AllDigits(s)
  {
    [DigitChar(n / 10), DigitChar(n % 10)]
  }

  lemma {:induction false} Pad2Value(n: nat)
    requires n < 100
    ensures NatValue(Pad2(n)) == n
  {
    var s := Pad2(n);
    assert s[..1][..0] == "";
    assert NatValue(s[..1]) == n / 10;
  }

  function Max(a: nat, b: nat): nat { if a < b then b else a }

  lemma {:induction false} Assoc<T>(x: seq<T>, y: seq<T>, z: seq<T>)
    ensures x + (y + z) == x + y + z
  {
  }

  /** Position of the first `x` at or after `i`; the length when there is none. */
  function Find(s: string, x: char, i: nat): (r: nat)
    requires i <= |s|
    ensures i <= r <= |s| && (r < |s| ==> s[r] == x)
    decreases |s| - i
  {
    if i == |s| || s[i] == x then i else Find(s, x, i + 1)
  }

  lemma {:induction false} FindIn(s: string, x: char, i: nat)
    requires i <= |s|
    ensures Find(s, x, i) < |s| <==> x in s[i..]
    decreases |s| - i
  {
    if i < |s| {
      assert s[i..] == [s[i]] + s[i + 1..];
      FindIn(s, x, i + 1);
    }
  }

  lemma {:induction false} FindIs(s: string, x: char, i: nat, p: nat)
    requires i <= p <= |s| && (p < |s| ==> s[p] == x) && forall k :: i <= k < p ==> s[k] != x
    ensures Find(s, x, i) == p
    decreases p - i
  {
    if i < p { FindIs(s, x, i + 1, p); }
  }

  /** What the digits after the dot are worth. */
  function FractionValue(s: string): real {
    if s == "" then 0.0 else (DigitValue(s[0]) as real + FractionValue(s[1..])) / 10.0
  }

  /** The value that `ss >> val` reads from a numeral. */
  function NumeralValue(s: string): real {
    var d := Find(s, '.', 0);
    if d == |s| then NatValue(s) as real else NatValue(s[..d]) as real + FractionValue(s[d + 1..])
  }

  /** `std::chrono::round`: to the nearest integer, ties to the even one. */
  function RoundHalfEven(x: real): (n: int)
    ensures n as real - 0.5 <= x <= n as real + 0.5
  {
    var f := x.Floor;
    var d := x - f as real;
    if d < 0.5 then f else if d > 0.5 then f + 1 else if f % 2 == 0 then f else f + 1
  }

  // ---- by code units ----

  lemma {:induction false} CharCodes(c: char)
    ensures IsDigit(c) <==> 48 <= c as int <= 57
    ensures IsDigit(c) ==> DigitValue(c) == c as int - 48
    ensures IsAlpha(c) <==> 65 <= c as int <= 90 || 97 <= c as int <= 122
    ensures IsSpace(c) <==> c as int == 32 || 9 <= c as int <= 13
  {
  }

  /** Halfway between two integers the even one is taken. */
  lemma {:induction false} HalfToEven(n: int)
    ensures RoundHalfEven(n as real + 0.5) == if n % 2 == 0 then n else n + 1
  {
    var x := n as real + 0.5;
    assert x.Floor == n;
  }
}
