/** Every text that the number recogniser gives a value, and every text that it takes for a null. */
module NumeralTexts {
  import opened Text
  import opened Decimal
  import opened Numeral
  import opened NumeralMeaning

  /** `s` with a minus sign set in, at any place or not at all. */
  function Insert(s: string, sign: Option<nat>): string
    requires sign.Some? ==> sign.value <= |s|
  {
    if sign.None? then s else s[..sign.value] + (['-'] + s[sign.value..])
  }

  /** An exponent as written: its minus sign may stand anywhere among its digits. */
  datatype Tail = Tail(mark: char, plus: bool, digits: string, sign: Option<nat>) {
    predicate Ok() {
      && (mark == 'e' || mark == 'E') && digits != "" && AllDigits(digits) && NatValue(digits) <= INT64_MAX
      && (sign.Some? ==> sign.value <= |digits|)
    }

    function Text(): string
      requires Ok()
    {
      [mark] + ((if plus then ['+'] else []) + Insert(digits, sign))
    }
  }

  /** A numeral as written: its minus sign may stand anywhere in the mantissa, and padding, with plus signs
      behind it, in front of all. */
  datatype Written = Written(pad: string, plus: string, whole: string, dotted: bool, fraction: string,
                             sign: Option<nat>, tail: Option<Tail>, trail: string)
  {
    function Bare(): string { if dotted then whole + (['.'] + fraction) else whole }

    /** Digits may be missing from a dot with an exponent behind it; an exponent needs a digit or a dot somewhere
        before it, the digit next to it. */
    ghost predicate Ok() {
      && AllOf(pad, ' ') && AllOf(plus, '+') && AllPad(trail)
      && AllDigits(whole) && AllDigits(fraction) && (fraction != "" ==> dotted)
      && (sign.Some? ==> sign.value <= |Bare()|)
      && (whole != "" || fraction != "" || (dotted && tail.Some?))
      && (tail.Some? ==> tail.value.Ok() && (dotted || sign != Some(|whole|)))
    }

    function Body(): string
      requires sign.Some? ==> sign.value <= |Bare()|
      requires tail.Some? ==> tail.value.Ok()
    {
      Insert(Bare(), sign) + if tail.Some? then tail.value.Text() else ""
    }

    function Text(): string
      requires sign.Some? ==> sign.value <= |Bare()|
      requires tail.Some? ==> tail.value.Ok()
    {
      pad + plus + Body() + trail
    }

    /** The numeral with its signs in front. */
    function InFront(): Number {
      Number(sign.Some?, whole, dotted, fraction,
        if tail.None? then None
        else var t := tail.value; Some(ExponentPart(t.mark, t.plus, t.sign.Some?, t.digits)))
    }
  }

  // ---- a minus sign set in ----

  /** `m` is plain with the digits of `s` on either side of the dot, and has a minus sign or not. */
  ghost predicate SameParts(m: string, s: string, negative: bool) {
    && Plain(m) && ('-' in m <==> negative) && ('.' in m <==> '.' in s)
    && Digits(m) == Digits(s) && Whole(m) == Whole(s) && Fraction(m) == Fraction(s)
  }

  lemma {:induction false} SignLast(s: string)
    requires Plain(s) && '-' !in s
    ensures SameParts(s + ['-'], s, true)
  {
    hide Plain, Digits, Whole, Fraction;
    PlainNext(s, '-');
    DigitsNext(s, '-');
    PartsNext(s, '-');
  }

  lemma {:induction false} SameNext(m: string, s: string, c: char)
    requires SameParts(m, s, true) && Plain(s + [c]) && c != '-'
    ensures SameParts(m + [c], s + [c], true)
  {
    hide Plain, Digits, Whole, Fraction;
    PlainNext(s, c);
    PlainNext(m, c);
    DigitsNext(m, c);
    PartsNext(m, c);
    DigitsNext(s, c);
    PartsNext(s, c);
  }

  lemma {:induction false} InsertNext(front: string, c: char, at: nat)
    requires at <= |front|
    ensures Insert(front + [c], Some(at)) == Insert(front, Some(at)) + [c]
  {
  }

  lemma {:induction false} PlainFront(front: string, c: char)
    requires Plain(front + [c]) && '-' !in front + [c]
    ensures Plain(front) && '-' !in front && c != '-'
  {
    PlainNext(front, c);
    assert (front + [c])[|front|] == c;
    assert forall i :: 0 <= i < |front| ==> (front + [c])[i] == front[i];
  }

  /** Wherever the minus sign stands, the digits on either side of the dot are the same. */
  lemma {:induction false} InsertIs(s: string, sign: Option<nat>)
    requires Plain(s) && '-' !in s && (sign.Some? ==> sign.value <= |s|)
    ensures SameParts(Insert(s, sign), s, sign.Some?)
    decreases |s|
  {
    hide Plain, Digits, Whole, Fraction;
    if sign.Some? {
      if sign.value == |s| {
        assert Insert(s, sign) == s + ['-'];
        SignLast(s);
      } else {
        var front, c := s[..|s| - 1], s[|s| - 1];
        assert s == front + [c];
        PlainFront(front, c);
        hide SameParts;
        InsertIs(front, sign);
        SameNext(Insert(front, sign), front, c);
        InsertNext(front, c, sign.value);
      }
    }
  }

  /** The minus sign of a plain text can be taken out. */
  lemma {:induction false} Removed(m: string) returns (s: string, sign: Option<nat>)
    requires Plain(m)
    ensures Plain(s) && '-' !in s && (sign.Some? ==> sign.value <= |s|) && Insert(s, sign) == m
  {
    s, sign := m, None;
    if '-' in m {
      var at :| 0 <= at < |m| && m[at] == '-';
      s, sign := m[..at] + m[at + 1..], Some(at);
      hide Plain, Insert;
      WithoutSign(m, at);
      PutBack(m, at);
    }
  }

  lemma {:induction false} WithoutSign(m: string, at: nat)
    requires Plain(m) && at < |m| && m[at] == '-'
    ensures Plain(m[..at] + m[at + 1..]) && '-' !in m[..at] + m[at + 1..]
  {
    var s := m[..at] + m[at + 1..];
    assert forall k :: 0 <= k < |s| ==> s[k] == m[if k < at then k else k + 1];
  }

  lemma {:induction false} PutBack(m: string, at: nat)
    requires at < |m| && m[at] == '-'
    ensures Insert(m[..at] + m[at + 1..], Some(at)) == m
  {
    var s := m[..at] + m[at + 1..];
    assert s[..at] == m[..at] && s[at..] == m[at + 1..];
  }

  /** Without a minus sign it is digits, or digits around a dot. */
  lemma {:induction false} DotSplit(s: string) returns (whole: string, dotted: bool, fraction: string)
    requires Plain(s) && '-' !in s
    ensures AllDigits(whole) && AllDigits(fraction) && (fraction != "" ==> dotted) && (dotted <==> '.' in s)
    ensures s == if dotted then whole + (['.'] + fraction) else whole
  {
    whole, dotted, fraction := s, false, "";
    if '.' in s {
      var d :| 0 <= d < |s| && s[d] == '.';
      whole, dotted, fraction := s[..d], true, s[d + 1..];
    }
  }

  lemma {:induction false} DigitsPlain(s: string)
    requires AllDigits(s)
    ensures Plain(s) && '-' !in s && '.' !in s
  {
  }

  /** The parts of an unsigned mantissa. */
  lemma {:induction false} BareParts(x: Written)
    requires AllDigits(x.whole) && AllDigits(x.fraction) && (x.fraction != "" ==> x.dotted)
    ensures var m := x.Bare();
      && Plain(m) && '-' !in m && ('.' in m <==> x.dotted) && Whole(m) == x.whole && Fraction(m) == x.fraction
      && (Digits(m) == "" <==> x.whole == "" && x.fraction == "") && (!x.dotted ==> Digits(m) == x.whole)
  {
    DigitsPlain(x.whole);
    DigitsSelf(x.whole);
    DigitsSelf(x.fraction);
    AnyDigit(x.Bare());
    hide Plain, Digits, Whole, Fraction;
    if x.dotted { WithDot(x.whole, x.fraction); } else { DotlessWhole(x.whole); }
  }

  /** The signed mantissa as written. */
  function Signs(x: Written): string
    requires x.sign.Some? ==> x.sign.value <= |x.Bare()|
  {
    Insert(x.Bare(), x.sign)
  }

  lemma {:induction false} SignsParts(x: Written)
    requires x.Ok()
    ensures SameParts(Signs(x), x.Bare(), x.sign.Some?) && Signs(x) != ""
    ensures ('.' in x.Bare() <==> x.dotted) && Whole(x.Bare()) == x.whole && Fraction(x.Bare()) == x.fraction
    ensures Digits(x.Bare()) == "" <==> x.whole == "" && x.fraction == ""
    ensures !x.dotted ==> Digits(x.Bare()) == x.whole
  {
    hide Plain, Digits, Whole, Fraction, AllOf, AllPad, NatValue, SameParts;
    BareParts(x);
    InsertIs(x.Bare(), x.sign);
  }

  lemma {:induction false} LastDigit(x: Written)
    requires x.Ok() && !x.dotted && x.tail.Some?
    ensures Signs(x) != "" && IsDigit(Signs(x)[|Signs(x)| - 1])
  {
    var s, m := x.whole, Signs(x);
    if x.sign.Some? {
      assert m[|m| - 1] == s[|s| - 1];
    }
  }

  /** What a sign set in leaves of the mantissa. */
  ghost predicate SignedOk(m: string, x: Written) {
    && Plain(m) && m != "" && ('.' in m <==> x.dotted) && MantissaValue(m) == Coefficient(x.InFront())
    && (Digits(m) == "" <==> x.whole == "" && x.fraction == "") && (!x.dotted ==> Digits(m) == x.whole)
    && (x.tail.Some? ==> x.dotted || IsDigit(m[|m| - 1]))
  }

  lemma {:induction false} SignsAre(x: Written)
    requires x.Ok()
    ensures SignedOk(Signs(x), x)
  {
    hide Plain, Digits, Whole, Fraction, NatValue, FractionValue, AllOf, AllPad, Signs;
    SignsParts(x);
    if x.tail.Some? && !x.dotted { LastDigit(x); }
  }

  lemma {:induction false} PlainEnds(m: string)
    requires Plain(m) && m != ""
    ensures NoExponentMark(m) && m[0] != ' ' && m[0] != '+' && !IsPad(m[|m| - 1])
  {
    PlainMarks(m);
  }

  // ---- every numeral as written is read as what it denotes ----

  /** The text behind the mark. */
  function TailRest(t: Tail): string
    requires t.Ok()
  {
    (if t.plus then ['+'] else []) + Insert(t.digits, t.sign)
  }

  lemma {:induction false} InsertSome(s: string, sign: Option<nat>)
    requires s != "" && (sign.Some? ==> sign.value <= |s|)
    ensures Insert(s, sign) != ""
  {
  }

  lemma {:induction false} TailIs(t: Tail)
    requires t.Ok()
    ensures var rest := TailRest(t);
      && rest != "" && !IsPad(rest[|rest| - 1])
      && Exponent(AfterPlus(rest)) == Some(Power(ExponentPart(t.mark, t.plus, t.sign.Some?, t.digits)))
  {
    hide Plain, Digits, Whole, Fraction, NatValue, Insert;
    var s := Insert(t.digits, t.sign);
    DigitsPlain(t.digits);
    DigitsSelf(t.digits);
    InsertIs(t.digits, t.sign);
    InsertSome(t.digits, t.sign);
    PlainEnds(s);
    assert AfterPlus(TailRest(t)) == s;
  }

  lemma {:induction false} BodyMeans(x: Written)
    requires x.Ok()
    ensures ReadBody(x.Body()) == Denoted(x.InFront()) && Denoted(x.InFront()).value.Some?
  {
    hide MantissaValue, Coefficient, Digits, NatValue, Plain, IntegralType, ReadBody, NoExponentMark, Insert, Exponent;
    hide Power, Times, TenPower, AfterPlus, AllOf, AllPad, TailRest;
    var m := Signs(x);
    SignsAre(x);
    PlainEnds(m);
    BodyIsSigns(x);
    hide Signs;
    if x.tail.Some? {
      TailIs(x.tail.value);
      BodyWith(m, x.tail.value.mark, TailRest(x.tail.value));
    } else {
      BodyWithout(m);
    }
  }

  lemma {:induction false} BodyIsSigns(x: Written)
    requires x.Ok()
    ensures x.Body() == if x.tail.Some? then Signs(x) + ([x.tail.value.mark] + TailRest(x.tail.value)) else Signs(x)
  {
  }

  lemma {:induction false} BodyEnds(x: Written)
    requires x.Ok()
    ensures var b := x.Body(); b != "" && b[0] != ' ' && b[0] != '+' && !IsPad(b[|b| - 1])
  {
    hide MantissaValue, Coefficient, Digits, NatValue, Plain, NoExponentMark, Insert, Exponent, Power, AfterPlus, AllOf;
    hide AllPad, TailRest;
    var m := Signs(x);
    SignsAre(x);
    PlainEnds(m);
    BodyIsSigns(x);
    hide Signs;
    if x.tail.Some? {
      TailIs(x.tail.value);
      Ends(m, x.tail.value.mark, TailRest(x.tail.value));
    }
  }

  lemma {:induction false} ReadWritten(x: Written)
    requires x.Ok()
    ensures Read(x.Text()) == Denoted(x.InFront()) && Read(x.Text()).value.Some?
  {
    BodyEnds(x);
    BodyMeans(x);
    hide Read, ReadBody, Denoted;
    Unwrapped(x.pad, x.plus, x.Body(), x.trail);
  }

  // ---- whatever has a value is such a numeral ----

  lemma {:induction false} SkipCharAll(s: string, c: char, i: nat)
    requires i <= |s|
    ensures forall k :: i <= k < SkipChar(s, c, i) ==> s[k] == c
    decreases |s| - i
  {
    if i < |s| && s[i] == c { SkipCharAll(s, c, i + 1); }
  }

  lemma {:induction false} TrimEndAll(s: string)
    ensures forall k :: TrimEnd(s) <= k < |s| ==> IsPad(s[k])
    ensures TrimEnd(s) > 0 ==> !IsPad(s[TrimEnd(s) - 1])
  {
    if s != "" && IsPad(s[|s| - 1]) { TrimEndAll(s[..|s| - 1]); }
  }

  lemma {:induction false} Slices(text: string, i: nat, j: nat, k: nat)
    requires i <= j <= k <= |text|
    ensures text == text[..i] + text[i..j] + text[j..k] + text[k..]
  {
  }

  /** The places where a text is cut as it is read. */
  lemma {:induction false} Cuts(text: string) returns (first: nat, start: nat, end: nat)
    requires Read(text) != STRING && !AllOf(text, ' ')
    ensures first <= start <= end <= |text| && AllOf(text[..first], ' ') && AllOf(text[first..start], '+')
    ensures AllPad(text[end..]) && Read(text) == ReadBody(text[start..end])
    ensures start == end ==> first < start && end < |text|
  {
    hide ReadBody, SkipChar, TrimEnd;
    first := SkipChar(text, ' ', 0);
    start := SkipChar(text, '+', first);
    end := TrimEnd(text);
    SkipCharAll(text, ' ', 0);
    SkipCharAll(text, '+', first);
    TrimEndAll(text);
    NotEmpty(text, first, start, end);
    if end <= start {
      end := start;
      assert text[start..end] == "";
    }
  }

  /** With nothing to read there is a plus sign and padding behind it. */
  lemma {:induction false} NotEmpty(text: string, first: nat, start: nat, end: nat)
    requires first <= start < |text| && 0 < end <= |text|
    requires (forall k :: 0 <= k < first ==> text[k] == ' ') && (forall k :: end <= k < |text| ==> IsPad(text[k]))
    requires !IsPad(text[end - 1])
    ensures end > first && (end <= start ==> first < start)
  {
  }

  /** A text taken apart as it is read. */
  lemma {:induction false} Wrapped(text: string) returns (pad: string, plus: string, b: string, trail: string)
    requires Read(text) != STRING && !AllOf(text, ' ')
    ensures AllOf(pad, ' ') && AllOf(plus, '+') && AllPad(trail) && text == pad + plus + b + trail
    ensures Read(text) == ReadBody(b) && (b == "" ==> plus != "" && trail != "")
  {
    hide Read, ReadBody, AllOf, AllPad;
    var first, start, end := Cuts(text);
    Slices(text, first, start, end);
    pad, plus, b, trail := text[..first], text[first..start], text[start..end], text[end..];
  }

  lemma {:induction false} DigitsOnly(s: string)
    requires Plain(s) && '-' !in s && '.' !in s
    ensures AllDigits(s)
  {
  }

  lemma {:induction false} TailFound(mark: char, rest: string) returns (t: Tail)
    requires (mark == 'e' || mark == 'E') && Exponent(AfterPlus(rest)).Some?
    ensures t.Ok() && t.Text() == [mark] + rest
  {
    var s := AfterPlus(rest);
    hide Plain, NatValue, Digits, Whole, Fraction;
    var digits, sign := Removed(s);
    InsertIs(digits, sign);
    DigitsOnly(digits);
    DigitsSelf(digits);
    t := Tail(mark, s != rest, digits, sign);
    hide Insert;
    assert rest == (if t.plus then ['+'] else []) + s;
  }

  /** The mantissa alone. */
  lemma {:induction false} MantissaFound(m: string) returns (x: Written)
    requires Plain(m)
    ensures x.pad == x.plus == x.trail == "" && x.tail.None? && (x.sign.Some? ==> x.sign.value <= |x.Bare()|)
    ensures AllDigits(x.whole) && AllDigits(x.fraction) && (x.fraction != "" ==> x.dotted)
    ensures Signs(x) == m && (x.dotted <==> '.' in m) && (Digits(m) == "" <==> x.whole == "" && x.fraction == "")
  {
    hide Plain, Digits, Whole, Fraction;
    var s, sign := Removed(m);
    var whole, dotted, fraction := DotSplit(s);
    x := Written("", "", whole, dotted, fraction, sign, None, "");
    InsertIs(s, sign);
    BareParts(x);
    hide Insert;
  }

  lemma {:induction false} DigitBefore(x: Written)
    requires (x.sign.Some? ==> x.sign.value <= |x.Bare()|) && !x.dotted
    requires Signs(x) != "" && IsDigit(Signs(x)[|Signs(x)| - 1])
    ensures x.whole != "" && x.sign != Some(|x.whole|)
  {
    if x.sign == Some(|x.whole|) { SignAtEnd(x.whole); }
  }

  lemma {:induction false} SignAtEnd(s: string)
    ensures Insert(s, Some(|s|)) == s + ['-']
  {
  }

  lemma {:induction false} BodyFound(b: string) returns (x: Written)
    requires ReadBody(b).value.Some?
    ensures x.pad == x.plus == x.trail == "" && x.Ok() && x.Body() == b
  {
    hide Plain, Digits, MantissaValue, NatValue, IntegralType, Exponent, AfterPlus, Times, TenPower, AllDigits, Insert;
    var e := ExponentStart(b, 0);
    var m := b[..e];
    x := MantissaFound(m);
    if e < |b| {
      var t := TailFound(b[e], b[e + 1..]);
      if !x.dotted {
        assert m[|m| - 1] == b[e - 1];
        DigitBefore(x);
      }
      x := x.(tail := Some(t));
      assert b == m + ([b[e]] + b[e + 1..]);
    } else {
      assert m == b;
    }
  }

  lemma {:induction false} WrittenFound(text: string) returns (x: Written)
    requires Read(text).value.Some?
    ensures x.Ok() && x.Text() == text
  {
    if AllOf(text, ' ') { NoBlankValue(text); }
    hide Read, ReadBody, AllOf, AllPad, AllDigits, Insert;
    var pad, plus, b, trail := Wrapped(text);
    x := BodyFound(b);
    x := x.(pad := pad, plus := plus, trail := trail);
  }

  lemma {:induction false} NoBlankValue(text: string)
    requires AllOf(text, ' ')
    ensures Read(text) == NULL
  {
    SkipCharIs(text, ' ', 0, |text|);
  }

  /** The texts that have a value are exactly the numerals with a minus sign set in anywhere, and what they are
      read as is what the numeral denotes with its signs in front. */
  lemma {:induction false} ValueExactly(text: string, r: Reading)
    ensures Read(text) == r && r.value.Some?
      <==> exists x: Written :: x.Ok() && x.Text() == text && r == Denoted(x.InFront())
  {
    hide Read, Denoted;
    if Read(text) == r && r.value.Some? {
      var x := WrittenFound(text);
      ReadWritten(x);
    }
    forall x: Written | x.Ok() && x.Text() == text
      ensures Read(text) == Denoted(x.InFront()) && Read(text).value.Some?
    {
      ReadWritten(x);
    }
  }

  /** A number of three digits with the minus sign inside. */
  lemma {:induction false} SignInside()
    ensures Read("5-3") == Reading(CsvInt8, Some(-53.0))
  {
    var x := Written("", "", "53", false, "", Some(1), None, "");
    assert Insert("53", Some(1)) == "5-3";
    assert x.Text() == "5-3";
    ReadWritten(x);
    Value53();
    hide Read;
  }

  lemma {:induction false} Value53()
    ensures NatValue("53") == 53
  {
    assert "53"[..1] == "5" && "5"[..0] == "";
    assert NatValue("5") == 5;
  }

  // ---- nulls ----

  /** What is no number and no digit: signs and dots alone. */
  const MARKS: seq<string> := ["-", ".", "-.", ".-"]

  lemma {:induction false} MarksAre(b: string)
    requires Plain(b) && Digits(b) == ""
    ensures b == "" || b in MARKS
  {
    hide Digits, Plain;
    NoDigit(b);
    AtMostTwo(b);
    if |b| == 2 {
      assert b == [b[0], b[1]];
      assert b == "-." || b == ".-";
    } else if |b| == 1 {
      assert b == [b[0]];
      assert b == "-" || b == ".";
    }
  }

  lemma {:induction false} AtMostTwo(b: string)
    requires Plain(b) && forall i :: 0 <= i < |b| ==> !IsDigit(b[i])
    ensures |b| <= 2 && (|b| == 2 ==> b[0] != b[1]) && forall i :: 0 <= i < |b| ==> b[i] == '-' || b[i] == '.'
  {
    if |b| > 2 { ThreeMarks(b); }
  }

  lemma {:induction false} ThreeMarks(b: string)
    requires |b| > 2 && forall i :: 0 <= i < |b| ==> b[i] == '-' || b[i] == '.'
    ensures !Plain(b)
  {
    assert b[0] == b[1] || b[1] == b[2] || b[0] == b[2];
  }

  lemma {:induction false} NoDigit(s: string)
    requires Digits(s) == ""
    ensures forall i :: 0 <= i < |s| ==> !IsDigit(s[i])
  {
    if s != "" {
      var front := s[..|s| - 1];
      NoDigit(front);
      assert forall i :: 0 <= i < |front| ==> s[i] == front[i];
    }
  }

  lemma {:induction false} NoDigitIs(s: string)
    requires forall i :: 0 <= i < |s| ==> !IsDigit(s[i])
    ensures Digits(s) == ""
  {
    if s != "" { NoDigitIs(s[..|s| - 1]); }
  }

  lemma {:induction false} MarksPlain(b: string)
    requires b in MARKS || b == ""
    ensures Plain(b) && (forall i :: 0 <= i < |b| ==> !IsDigit(b[i]))
  {
  }

  lemma {:induction false} MarksNull(b: string)
    requires b in MARKS || b == ""
    ensures ReadBody(b) == NULL && (b != "" ==> b[0] != ' ' && b[0] != '+' && !IsPad(b[|b| - 1]))
  {
    hide Plain, Digits, MantissaValue, Exponent, AfterPlus, Times, TenPower;
    MarksPlain(b);
    NoDigitIs(b);
    if b != "" { PlainEnds(b); }
    if b == "" { PlainMarks(b); }
    ExponentStartIs(b, 0, |b|);
    assert b[..|b|] == b;
  }

  /** A text that is read as a null: blanks, or signs and dots alone, perhaps none, between padding. */
  datatype NullText = NullText(pad: string, plus: string, marks: string, trail: string) {
    ghost predicate Ok() {
      && AllOf(pad, ' ') && AllOf(plus, '+') && AllPad(trail)
      && (marks in MARKS || (marks == "" && plus != "" && trail != ""))
    }

    function Text(): string { pad + plus + marks + trail }
  }

  lemma {:induction false} NoBody(pad: string, plus: string, trail: string)
    requires AllOf(pad, ' ') && AllOf(plus, '+') && AllPad(trail) && plus != "" && trail != ""
    ensures Read(pad + plus + trail) == ReadBody("")
  {
    var text, start := pad + plus + trail, |pad| + |plus|;
    assert forall k :: |pad| <= k < start ==> text[k] == plus[k - |pad|];
    assert text[start] == trail[0] && text[start - 1] == '+';
    SkipCharIs(text, ' ', 0, |pad|);
    SkipCharIs(text, '+', |pad|, start);
    TrimEndIs(text, start);
    hide ReadBody;
  }

  lemma {:induction false} NullRead(x: NullText)
    requires x.Ok()
    ensures Read(x.Text()) == NULL
  {
    MarksNull(x.marks);
    hide Read, ReadBody, AllOf, AllPad;
    if x.marks == "" {
      NoBody(x.pad, x.plus, x.trail);
      assert x.pad + x.plus + "" + x.trail == x.pad + x.plus + x.trail;
    } else {
      Unwrapped(x.pad, x.plus, x.marks, x.trail);
    }
  }

  lemma {:induction false} NullFound(text: string) returns (x: NullText)
    requires Read(text) == NULL && !AllOf(text, ' ')
    ensures x.Ok() && x.Text() == text
  {
    hide Read, AllOf, AllPad, Plain, Digits, MantissaValue, Exponent, Times, TenPower;
    var pad, plus, b, trail := Wrapped(text);
    BodyNull(b);
    x := NullText(pad, plus, b, trail);
  }

  lemma {:induction false} BodyNull(b: string)
    requires ReadBody(b) == NULL
    ensures b == "" || b in MARKS
  {
    hide Plain, Digits, MantissaValue, Exponent, Times, TenPower;
    assert b[..|b|] == b;
    MarksAre(b);
  }

  /** The nulls are exactly the texts of blanks and those of signs and dots alone. */
  lemma {:induction false} NullExactly(text: string)
    ensures Read(text) == NULL <==> AllOf(text, ' ') || exists x: NullText :: x.Ok() && x.Text() == text
  {
    hide Read;
    if AllOf(text, ' ') {
      NoBlankValue(text);
    } else if Read(text) == NULL {
      var x := NullFound(text);
    }
    forall x: NullText | x.Ok() && x.Text() == text
      ensures Read(text) == NULL
    {
      NullRead(x);
    }
  }

  /** A minus sign is a null, a tab is a string. */
  lemma {:induction false} LoneMarks()
    ensures Read("-") == NULL && Read("\t") == STRING
  {
    hide Read;
    var x := NullText("", "", "-", "");
    NullRead(x);
    assert x.Text() == "-";
    LoneTab("\t");
  }

  lemma {:induction false} LoneTab(tab: string)
    requires tab == "\t"
    ensures Read(tab) == STRING
  {
    hide ReadBody;
    SkipCharIs(tab, ' ', 0, 0);
    TrimEndIs(tab, 0);
  }

  // ---- the values, as whole numbers and powers of ten ----

  lemma {:induction false} JoinValue(a: string, b: string)
    ensures NatValue(a + b) == NatValue(a) * Pow10(|b|) + NatValue(b)
  {
    hide DigitValue;
    if b == "" {
      assert a + b == a;
    } else {
      var front, c := b[..|b| - 1], b[|b| - 1];
      var w := a + b;
      assert w[..|w| - 1] == a + front && w[|w| - 1] == c;
      JoinValue(a, front);
      TenTimes(NatValue(a), Pow10(|front|));
    }
  }

  lemma {:induction false} Unscaled(whole: string, fraction: string)
    ensures Times(NatValue(whole) as real + FractionValue(fraction), Pow10(|fraction|) as real)
         == NatValue(whole + fraction) as real
  {
    hide NatValue, FractionValue, Pow10;
    FractionIs(fraction);
    JoinValue(whole, fraction);
    Distribute(NatValue(whole), FractionValue(fraction), Pow10(|fraction|), NatValue(fraction));
  }

  lemma {:induction false} Distribute(n: nat, f: real, p: nat, m: nat)
    requires Times(f, p as real) == m as real
    ensures Times(n as real + f, p as real) == (n * p + m) as real
  {
    ProductAsReal(n, p);
    assert (n as real + f) * p as real == n as real * p as real + f * p as real;
  }

  lemma {:induction false} TimesTurned(x: real, y: real, z: real)
    ensures Times(Times(x, y), z) == Times(Times(x, z), y)
    ensures Times(Times(x, y), z) == Times(x, Times(y, z)) && Times(x, 1.0) == x
  {
  }

  /** A numeral with a fraction times the power of ten of its decimals is the whole number of its digits; with
      an exponent, that number times the power of ten of the exponent, or divided by it. */
  lemma {:induction false} Scientific(whole: string, fraction: string, digits: string, negative: bool)
    requires AllDigits(whole) && AllDigits(fraction) && whole != ""
    requires digits != "" && AllDigits(digits) && NatValue(digits) <= 9223372036854775807
    ensures var t := whole + "." + fraction;
      && Read(t).value.Some?
      && Times(Read(t).value.value, Pow10(|fraction|) as real) == NatValue(whole + fraction) as real
    ensures var t, k := whole + "." + fraction + (if negative then "e-" else "e") + digits, NatValue(digits);
      && Read(t).value.Some?
      && var v := Times(Read(t).value.value, Pow10(|fraction|) as real);
        if negative then Times(v, Pow10(k) as real) == NatValue(whole + fraction) as real
        else v == Times(NatValue(whole + fraction) as real, Pow10(k) as real)
  {
    hide Read, NatValue, FractionValue, Pow10, TenPower, Times;
    var c := NatValue(whole) as real + FractionValue(fraction);
    Unscaled(whole, fraction);
    PointRead(whole, fraction);
    ScientificRead(whole, fraction, digits, negative);
    var k: int, p := NatValue(digits), Pow10(|fraction|) as real;
    if negative {
      TenPowerIs(-k);
      TimesTurned(c, TenPower(-k), p);
      TimesTurned(Times(c, p), TenPower(-k), Pow10(k) as real);
    } else {
      TenPowerIs(k);
      TimesTurned(c, TenPower(k), p);
    }
  }

  lemma {:induction false} UnsignedOk(x: Written)
    requires x.pad == x.plus == x.trail == "" && x.dotted && x.sign.None? && x.whole != ""
    requires AllDigits(x.whole) && AllDigits(x.fraction) && (x.tail.Some? ==> x.tail.value.Ok())
    ensures x.Ok()
  {
    hide AllDigits;
  }

  lemma {:induction false} UnsignedValue(x: Written)
    requires x.dotted && x.sign.None?
    ensures Coefficient(x.InFront()) == NatValue(x.whole) as real + FractionValue(x.fraction)
  {
  }

  lemma {:induction false} PointRead(whole: string, fraction: string)
    requires AllDigits(whole) && AllDigits(fraction) && whole != ""
    ensures Read(whole + "." + fraction).value == Some(NatValue(whole) as real + FractionValue(fraction))
  {
    hide Read, NatValue, FractionValue, AllDigits, Coefficient, Insert;
    var x := Written("", "", whole, true, fraction, None, None, "");
    UnsignedOk(x);
    UnsignedValue(x);
    PointText(x);
    ReadWritten(x);
  }

  lemma {:induction false} PointText(x: Written)
    requires x.pad == x.plus == x.trail == "" && x.dotted && x.sign.None? && x.tail.None?
    ensures x.Text() == x.whole + "." + x.fraction
  {
  }

  lemma {:induction false} ScientificRead(whole: string, fraction: string, digits: string, negative: bool)
    requires AllDigits(whole) && AllDigits(fraction) && whole != ""
    requires digits != "" && AllDigits(digits) && NatValue(digits) <= INT64_MAX
    ensures var k: int := NatValue(digits);
      Read(whole + "." + fraction + (if negative then "e-" else "e") + digits).value
      == Some(Times(NatValue(whole) as real + FractionValue(fraction), TenPower(if negative then -k else k)))
  {
    hide Read, NatValue, FractionValue, TenPower, Times, AllDigits, Coefficient, Insert;
    var tail := Tail('e', false, digits, if negative then Some(0) else None);
    var x := Written("", "", whole, true, fraction, None, Some(tail), "");
    UnsignedOk(x);
    UnsignedValue(x);
    ScientificText(x, digits, negative);
    ReadWritten(x);
  }

  lemma {:induction false} ScientificText(x: Written, digits: string, negative: bool)
    requires x.pad == x.plus == x.trail == "" && x.dotted && x.sign.None? && digits != ""
    requires AllDigits(digits) && NatValue(digits) <= INT64_MAX
    requires x.tail == Some(Tail('e', false, digits, if negative then Some(0) else None))
    ensures x.Text() == x.whole + "." + x.fraction + (if negative then "e-" else "e") + digits
  {
    hide NatValue, AllDigits, Insert;
    SignInFront(digits);
    NoSign(x.whole + (['.'] + x.fraction));
    NoSign(digits);
    Glued(x.whole, x.fraction, if negative then "-" else "", digits);
  }

  lemma {:induction false} SignInFront(s: string)
    ensures Insert(s, Some(0)) == "-" + s
  {
  }

  lemma {:induction false} NoSign(s: string)
    ensures Insert(s, None) == s == "" + s
  {
  }

  lemma {:induction false} Glued(whole: string, fraction: string, sign: string, digits: string)
    ensures "" + "" + (whole + (['.'] + fraction) + (['e'] + ([] + (sign + digits)))) + ""
         == whole + "." + fraction + ("e" + sign) + digits
  {
  }

  /** Digits in their places. */
  lemma {:induction false} DigitsInPlace()
    ensures NatValue("1234567890") == 1234567890
  {
    var s := "1234567890";
    Leading(s, 9);
    assert s[..10] == s;
    Leading(s, 10);
  }

  lemma {:induction false} Leading(s: string, n: nat)
    requires s == "1234567890" && n <= 10
    ensures NatValue(s[..n]) == [0, 1, 12, 123, 1234, 12345, 123456, 1234567, 12345678, 123456789, 1234567890][n]
    decreases n
  {
    if n > 0 {
      Leading(s, n - 1);
      assert s[..n][..n - 1] == s[..n - 1];
    }
  }

  // ---- types and limits, spelled out ----

  /** Digits are the smallest type with room for the number. */
  lemma {:induction false} IntegerTypes(digits: string)
    requires digits != "" && AllDigits(digits)
    ensures var n := NatValue(digits);
      Read(digits) == Reading(
        if n <= 127 then CsvInt8 else if n <= 32767 then CsvInt16 else if n <= 2147483647 then CsvInt32
        else if n <= 9223372036854775807 then CsvInt64 else CsvDouble, Some(n as real))
  {
    var x := Written("", "", digits, false, "", None, None, "");
    DigitsText(x);
    DigitsType(x);
    hide Read, NatValue, Denoted, Written.Ok;
    ReadWritten(x);
  }

  lemma {:induction false} DigitsText(x: Written)
    requires x.pad == x.plus == x.trail == x.fraction == "" && !x.dotted && x.sign.None? && x.tail.None?
    requires x.whole != "" && AllDigits(x.whole)
    ensures x.Ok() && x.Text() == x.whole
  {
    assert x.Bare() == x.whole;
  }

  lemma {:induction false} DigitsType(x: Written)
    requires !x.dotted && x.sign.None? && x.tail.None? && x.fraction == ""
    ensures var n := NatValue(x.whole);
      Denoted(x.InFront()) == Reading(
        if n <= 127 then CsvInt8 else if n <= 32767 then CsvInt16 else if n <= 2147483647 then CsvInt32
        else if n <= 9223372036854775807 then CsvInt64 else CsvDouble, Some(n as real))
  {
    hide NatValue;
    assert FractionValue("") == 0.0;
  }

  /** Blanks and tabs are taken off behind a number. */
  lemma {:induction false} PadCodes(c: char)
    ensures IsPad(c) <==> c as int == 32 || c as int == 9
  {
  }

  /** An exponent of more than 64 bits makes a text. */
  lemma {:induction false} TooLarge(whole: string, fraction: string, digits: string, negative: bool)
    requires AllDigits(whole) && AllDigits(fraction) && whole != ""
    requires digits != "" && AllDigits(digits) && NatValue(digits) > 9223372036854775807
    ensures Read(whole + "." + fraction + (if negative then "e-" else "e") + digits) == STRING
  {
    hide Read, NatValue, FractionValue, AllDigits;
    var n := Number(false, whole, true, fraction, Some(ExponentPart('e', false, negative, digits)));
    LargeText(n, negative, digits);
    hide NumberText;
    NumeralExact(n, "", "", "");
    Bounded(NumberText(n));
  }

  lemma {:induction false} Bounded(t: string)
    ensures "" + "" + t + "" == t
  {
  }

  lemma {:induction false} LargeText(n: Number, negative: bool, digits: string)
    requires n.dotted && !n.negative && n.exponent == Some(ExponentPart('e', false, negative, digits))
    ensures NumberText(n) == n.whole + "." + n.fraction + (if negative then "e-" else "e") + digits
  {
    Glued(n.whole, n.fraction, if negative then "-" else "", digits);
  }
}
