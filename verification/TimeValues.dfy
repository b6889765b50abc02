/**
 What clocks and units are worth, told from the texts and from literal numbers of seconds alone.
 */
module TimeValues {
  import opened Text
  import opened TimeScan
  import opened TimePhrase
  import opened TimeStorage
  import TimeMeaning
  import TimeParser
  import Decimal

  // ---- clocks ----

  /** The seconds of a clock: two digits, or two digits, a dot and more. */
  predicate SecondsOk(s: string, fraction: string) {
    |s| == 2 && AllDigits(s) && AllDigits(fraction)
  }

  function Dotted(s: string, fraction: string): string { if fraction == "" then s else s + (['.'] + fraction) }

  lemma {:induction false} DottedIs(s: string, fraction: string)
    requires SecondsOk(s, fraction)
    ensures LastFieldOk(Dotted(s, fraction))
    ensures NumeralValue(Dotted(s, fraction)) == NatValue(s) as real + FractionValue(fraction)
    ensures forall k :: 0 <= k < |Dotted(s, fraction)| ==> IsNumChar(Dotted(s, fraction)[k])
  {
    if fraction == "" {
      DigitsAreNumeral(s);
      NotFound(s, '.', 0);
      WholeNumeral(s);
    } else {
      FractionText(s, fraction);
    }
  }

  /** A clock of digits and dots clashes with nothing. */
  ghost predicate ClockChars(t: string) { forall k :: 0 <= k < |t| ==> IsNumChar(t[k]) || t[k] == ':' }

  lemma {:induction false} FieldAddendsAre(fields: seq<string>, weights: seq<nat>)
    requires |fields| == |weights|
    ensures var r := FieldAddends(fields, weights);
      |r| == |fields| && forall k :: 0 <= k < |r| ==> r[k] == Addend(fields[k], weights[k])
  {
    if fields != [] { FieldAddendsAre(fields[1..], weights[1..]); }
  }

  lemma {:induction false} NoClash(p: Spelling)
    requires p.units == [] && ClockChars(p.Text())
    ensures !p.Clashes()
  {
    hide Phrase, ClockText;
  }

  lemma {:induction false} AloneOk(clock: seq<string>)
    requires ClockOk(clock, "") && clock != []
    ensures var p := Spelling([], clock, "");
      p.Ok() && p.Text() == ClockText(clock, "") && p.Addends() == FieldAddends(clock, ClockWeights(|clock| - 1))
  {
    hide FieldAddends, ClockText;
  }

  lemma {:induction false} ClockAccepted(clock: seq<string>)
    requires ClockOk(clock, "") && clock != [] && ClockChars(ClockText(clock, ""))
    ensures Parse(ClockText(clock, "")) == Some(Total(FieldAddends(clock, ClockWeights(|clock| - 1))))
  {
    hide ClockOk, ClockText, FieldAddends, Total, Parse, ClockWeights, ClockChars, UnitsOk, Phrase;
    var p := Spelling([], clock, "");
    AloneOk(clock);
    NoClash(p);
    PhraseAccepted(p);
  }

  lemma {:induction false} TotalOf(xs: seq<Addend>)
    ensures |xs| == 2 ==> Total(xs) == Worth(xs[0]) + Worth(xs[1])
    ensures |xs| == 3 ==> Total(xs) == Worth(xs[0]) + Worth(xs[1]) + Worth(xs[2])
    ensures |xs| == 4 ==> Total(xs) == Worth(xs[0]) + Worth(xs[1]) + Worth(xs[2]) + Worth(xs[3])
  {
    hide NumeralValue;
    TotalNone();
    if 2 <= |xs| <= 4 {
      TotalSnoc(xs[..0], xs[0]);
      assert xs[..1] == xs[..0] + [xs[0]];
      TotalSnoc(xs[..1], xs[1]);
      assert xs[..2] == xs[..1] + [xs[1]];
      if |xs| >= 3 {
        TotalSnoc(xs[..2], xs[2]);
        assert xs[..3] == xs[..2] + [xs[2]];
      }
      if |xs| >= 4 {
        TotalSnoc(xs[..3], xs[3]);
        assert xs[..4] == xs[..3] + [xs[3]];
      }
      assert xs[..|xs|] == xs;
    }
  }

  function Worth(a: Addend): real { NumeralValue(a.num) * a.weight as real }

  lemma {:induction false} TotalNone()
    ensures forall xs: seq<Addend> :: Total(xs[..0]) == 0.0
  {
  }

  /** The places of a clock, from the last one on: seconds, minutes, hours and days. */
  function PlacesWorth(clock: seq<string>): real
    requires 2 <= |clock| <= 4
  {
    var n := |clock|;
    NumeralValue(clock[n - 1]) + NumeralValue(clock[n - 2]) * 60.0
    + (if n >= 3 then NumeralValue(clock[n - 3]) * 3600.0 else 0.0)
    + if n == 4 then NumeralValue(clock[0]) * 86400.0 else 0.0
  }

  lemma {:induction false} WeightsAre()
    ensures ClockWeights(1) == [60, 1] && ClockWeights(2) == [3600, 60, 1] && ClockWeights(3) == [86400, 3600, 60, 1]
  {
  }

  lemma {:induction false} WorthOf(clock: seq<string>, xs: seq<Addend>)
    requires 2 <= |clock| <= 4 && |xs| == |clock|
    requires forall k :: 0 <= k < |xs| ==> xs[k] == Addend(clock[k], ClockWeights(|clock| - 1)[k])
    ensures Total(xs) == PlacesWorth(clock)
  {
    hide NumeralValue, Total, ClockWeights;
    WeightsAre();
    TotalOf(xs);
  }

  lemma {:induction false} Places(clock: seq<string>)
    requires ClockOk(clock, "") && clock != [] && ClockChars(ClockText(clock, ""))
    ensures Parse(ClockText(clock, "")) == Some(PlacesWorth(clock))
  {
    hide ClockText, FieldAddends, Total, Parse, ClockChars, FieldsOk, NumeralValue, ClockWeights, PlacesWorth;
    ClockAccepted(clock);
    FieldAddendsAre(clock, ClockWeights(|clock| - 1));
    WorthOf(clock, FieldAddends(clock, ClockWeights(|clock| - 1)));
  }

  lemma {:induction false} TwoText(m: string, last: string)
    ensures ClockText([m, last], "") == m + ":" + last
  {
    assert [m, last][1..] == [last] && [last][1..] == [];
    assert FieldsText([last], "") == ":" + last;
  }

  lemma {:induction false} ThreeText(h: string, m: string, last: string)
    ensures ClockText([h, m, last], "") == h + ":" + m + ":" + last
  {
    TwoText(m, last);
    assert [h, m, last][1..] == [m, last] && [m, last][1..] == [last];
    assert FieldsText([m, last], "") == ":" + m + FieldsText([last], "");
  }

  lemma {:induction false} FourText(d: string, h: string, m: string, last: string)
    ensures ClockText([d, h, m, last], "") == d + ":" + h + ":" + m + ":" + last
  {
    ThreeText(h, m, last);
    assert [d, h, m, last][1..] == [h, m, last] && [h, m, last][1..] == [m, last];
    assert FieldsText([h, m, last], "") == ":" + h + FieldsText([m, last], "");
  }

  lemma {:induction false} FieldsAre(h: string, m: string, last: string)
    requires |m| == 2 && AllDigits(m) && LastFieldOk(last)
    ensures FieldsOk([last], "") && FieldsOk([m, last], "")
    ensures |h| == 2 && AllDigits(h) ==> FieldsOk([h, m, last], "")
  {
    hide LastFieldOk, AllDigits;
    assert [m, last][1..] == [last] && [h, m, last][1..] == [m, last];
  }

  /** "m:ss" */
  lemma {:induction false} TwoFields(m: string, s: string, fraction: string)
    requires m != "" && AllDigits(m) && SecondsOk(s, fraction)
    ensures Parse(m + ":" + Dotted(s, fraction))
         == Some((60 * NatValue(m) + NatValue(s)) as real + FractionValue(fraction))
  {
    hide Dotted, LastFieldOk, NumeralValue, NatValue, FractionValue, Parse, ClockText, FieldsOk;
    var last := Dotted(s, fraction);
    DottedIs(s, fraction);
    WholeNumeral(m);
    FieldsAre("", "00", last);
    assert [m, last][1..] == [last];
    TwoText(m, last);
    Places([m, last]);
  }

  /** "h:mm:ss" */
  lemma {:induction false} ThreeFields(h: string, m: string, s: string, fraction: string)
    requires h != "" && AllDigits(h) && |m| == 2 && AllDigits(m) && SecondsOk(s, fraction)
    ensures Parse(h + ":" + m + ":" + Dotted(s, fraction))
         == Some((3600 * NatValue(h) + 60 * NatValue(m) + NatValue(s)) as real + FractionValue(fraction))
  {
    hide Dotted, LastFieldOk, NumeralValue, NatValue, FractionValue, Parse, ClockText, FieldsOk;
    var last := Dotted(s, fraction);
    DottedIs(s, fraction);
    WholeNumeral(h);
    WholeNumeral(m);
    FieldsAre("", m, last);
    assert [h, m, last][1..] == [m, last];
    ThreeText(h, m, last);
    Places([h, m, last]);
  }

  /** "d:hh:mm:ss" */
  lemma {:induction false} FourFields(d: string, h: string, m: string, s: string, fraction: string)
    requires d != "" && AllDigits(d) && |h| == 2 && AllDigits(h) && |m| == 2 && AllDigits(m) && SecondsOk(s, fraction)
    ensures Parse(d + ":" + h + ":" + m + ":" + Dotted(s, fraction))
         == Some((86400 * NatValue(d) + 3600 * NatValue(h) + 60 * NatValue(m) + NatValue(s)) as real
                 + FractionValue(fraction))
  {
    hide Dotted, LastFieldOk, NumeralValue, NatValue, FractionValue, Parse, ClockText, FieldsOk;
    var last := Dotted(s, fraction);
    DottedIs(s, fraction);
    WholeNumeral(d);
    WholeNumeral(h);
    WholeNumeral(m);
    FieldsAre(h, m, last);
    assert [d, h, m, last][1..] == [h, m, last];
    FourText(d, h, m, last);
    Places([d, h, m, last]);
  }

  // ---- units ----

  /** The words for weeks, days, hours, minutes and seconds. */
  function SecondsOf(word: string): nat {
    if word in ["w", "wk", "week", "weeks"] then 604800
    else if word in ["d", "day", "days"] then 86400
    else if word in ["h", "hr", "hrs", "hour", "hours"] then 3600
    else if word in ["m", "min", "mins", "minute", "minutes"] then 60
    else if word in ["s", "sec", "secs", "second", "seconds"] then 1
    else 0
  }

  lemma {:induction false} GroupsAre(word: string)
    ensures GroupOf(0, word) < |SYMBOLS| <==> SecondsOf(word) != 0
    ensures Weight(word) == SecondsOf(word)
  {
    assert GroupOf(0, word) == if word in SYMBOLS[0] then 0 else GroupOf(1, word);
    assert GroupOf(1, word) == if word in SYMBOLS[1] then 1 else GroupOf(2, word);
    assert GroupOf(2, word) == if word in SYMBOLS[2] then 2 else GroupOf(3, word);
    assert GroupOf(3, word) == if word in SYMBOLS[3] then 3 else GroupOf(4, word);
    assert GroupOf(4, word) == if word in SYMBOLS[4] then 4 else 5;
  }

  predicate Alphabetic(word: string) { word != "" && forall k :: 0 <= k < |word| ==> IsAlpha(word[k]) }

  /** White space, or nothing. */
  predicate Blank(gap: string) { forall k :: 0 <= k < |gap| ==> IsSpace(gap[k]) }

  lemma {:induction false} BlankSeparates(gap: string)
    requires Blank(gap)
    ensures Separator(gap) && CommaCount(gap) == 0
    decreases |gap|
  {
    if gap != "" { BlankSeparates(gap[1..]); }
  }

  lemma {:induction false} WordBehind(num: string, gap: string, word: string)
    requires IsNumeral(num) && Blank(gap) && Alphabetic(word)
    ensures var t, i := num + gap + word, |num| + |gap|;
      && (forall k :: 0 <= k < i ==> !IsAlpha(t[k])) && (forall k :: i <= k < |t| ==> IsAlpha(t[k]))
      && t[i..|t|] == word
  {
    var front := num + gap;
    NumberAhead(num, gap);
    hide IsNumeral, Blank, IsAlpha;
    Beside(front, word);
  }

  lemma {:induction false} NumberAhead(num: string, gap: string)
    requires IsNumeral(num) && Blank(gap)
    ensures forall k :: 0 <= k < |num + gap| ==> !IsAlpha((num + gap)[k])
  {
  }

  lemma {:induction false} Beside(front: string, word: string)
    ensures var t := front + word;
      && t[|front|..] == word && t[|front|..|t|] == word
      && (forall k :: 0 <= k < |front| ==> t[k] == front[k])
      && (forall k :: |front| <= k < |t| ==> t[k] == word[k - |front|])
  {
  }

  lemma {:induction false} NoCommas(word: string)
    requires Alphabetic(word)
    ensures Letters(word) == word && CommasAfter(0, word) == 0 && WordOk(word)
  {
    hide Letters, CommasAfter;
    assert forall k :: 0 <= k < |word| ==> word[k] != ',';
    LettersOf(word);
  }

  /** The one word of the text. */
  lemma {:induction false} OneWord(num: string, gap: string, word: string)
    requires IsNumeral(num) && Blank(gap) && Alphabetic(word)
    ensures TimeMeaning.Words(num + gap + word, 0) == [word]
  {
    hide IsAlpha, IsNumeral, Letters, Blank;
    var t, i := num + gap + word, |num| + |gap|;
    WordBehind(num, gap, word);
    NoCommas(word);
    TimeMeaning.NoWords(t, 0, i);
    TimeMeaning.WordRead(t, i);
    WordEndAt(t, i + 1, |t|);
  }

  lemma {:induction false} SingleUnit(u: Unit)
    requires UnitOk(u, 0) && EndOk(u)
    ensures var p := Spelling([u], [], "");
      p.Ok() && !p.Clashes() && p.Text() == u.num + u.gap + u.word && p.Addends() == [] + [UnitAddend(u)]
  {
    hide GroupOf, Weight, Letters, EndOk, IsNumeral, WordOk, Separator, CommaCount;
    var us := [u];
    assert us[0] == u && us[1..] == [];
    assert Phrase(us[1..], "") == "" && UnitAddends(us[1..]) == [];
    SepEmpty(u);
    assert UnitsOk(us[1..], GroupOf(0, Letters(u.word)) + 1, false);
  }

  lemma {:induction false} SepEmpty(u: Unit)
    requires EndOk(u)
    ensures UnitText(u) + "" == u.num + u.gap + u.word
  {
  }

  lemma {:induction false} UnitSpelled(num: string, gap: string, word: string) returns (p: Spelling)
    requires IsNumeral(num) && Blank(gap) && Alphabetic(word) && SecondsOf(word) != 0
    ensures p.Ok() && !p.Clashes() && p.Text() == num + gap + word
    ensures Total(p.Addends()) == Worth(Addend(num, SecondsOf(word)))
  {
    hide SecondsOf, GroupOf, Weight, Letters, IsNumeral, Separator, CommaCount, Blank, WordOk, Worth, Total;
    var u := Unit(num, gap, word, "");
    NoCommas(word);
    GroupsAre(word);
    BlankSeparates(gap);
    SingleUnit(u);
    TotalOne(UnitAddend(u));
    p := Spelling([u], [], "");
  }

  /** A number and one word is a number of seconds exactly when the word is one of the words for units. */
  lemma {:induction false} OneUnit(num: string, gap: string, word: string)
    requires IsNumeral(num) && Blank(gap) && Alphabetic(word)
    ensures Parse(num + gap + word)
         == if SecondsOf(word) == 0 then None else Some(Decimal.Times(NumeralValue(num), SecondsOf(word) as real))
  {
    hide Parse, SecondsOf, IsNumeral, Alphabetic, Blank, NumeralValue, Worth, Decimal.Times;
    if SecondsOf(word) != 0 {
      KnownUnit(num, gap, word);
      WorthIs(num, SecondsOf(word));
    } else {
      UnknownUnit(num, gap, word);
    }
  }

  lemma {:induction false} KnownUnit(num: string, gap: string, word: string)
    requires IsNumeral(num) && Blank(gap) && Alphabetic(word) && SecondsOf(word) != 0
    ensures Parse(num + gap + word) == Some(Worth(Addend(num, SecondsOf(word))))
  {
    hide Parse, SecondsOf, IsNumeral, Alphabetic, Blank, Worth, Total, Spelling.Ok, Spelling.Text, Spelling.Clashes;
    hide Spelling.Addends;
    var p := UnitSpelled(num, gap, word);
    PhraseAccepted(p);
  }

  lemma {:induction false} WorthIs(num: string, n: nat)
    ensures Worth(Addend(num, n)) == Decimal.Times(NumeralValue(num), n as real)
  {
    hide NumeralValue;
  }

  lemma {:induction false} UnknownUnit(num: string, gap: string, word: string)
    requires IsNumeral(num) && Blank(gap) && Alphabetic(word) && SecondsOf(word) == 0
    ensures Parse(num + gap + word) == None
  {
    hide Parse, SecondsOf, IsNumeral, Alphabetic, Blank, GroupOf, Weight;
    var t := num + gap + word;
    OneWord(num, gap, word);
    GroupsAre(word);
    if Parse(t).Some? { KnownWord(t, word); }
  }

  lemma {:induction false} KnownWord(t: string, word: string)
    requires Parse(t).Some? && TimeMeaning.Words(t, 0) == [word]
    ensures GroupOf(0, word) < |SYMBOLS|
  {
    hide Parse, GroupOf;
    TimeMeaning.AcceptedMeans(t);
  }

  lemma {:induction false} TotalOne(a: Addend)
    ensures Total([] + [a]) == Worth(a)
  {
    TotalSnoc([], a);
    hide NumeralValue;
    assert Total([]) == 0.0;
  }

  /** A whole number of a unit. */
  lemma {:induction false} WholeUnits(n: nat, gap: string, word: string)
    requires Blank(gap) && SecondsOf(word) != 0
    ensures Parse(NatText(n) + gap + word) == Some((n * SecondsOf(word)) as real)
  {
    DigitsAreNumeral(NatText(n));
    FieldValue(n);
    SecondsWord(word);
    hide NatText, Parse, NumeralValue, Alphabetic, SecondsOf, IsNumeral, Blank, Decimal.Times;
    Product(n, SecondsOf(word));
    OneUnit(NatText(n), gap, word);
  }

  lemma {:induction false} Product(n: nat, k: nat)
    ensures Decimal.Times(n as real, k as real) == (n * k) as real
  {
  }

  lemma {:induction false} SecondsWord(word: string)
    requires SecondsOf(word) != 0
    ensures Alphabetic(word)
  {
  }

  // ---- the cell around the text ----

  predicate AllTrimmed(s: string) { forall k :: 0 <= k < |s| ==> s[k] in " \r\t\n" }

  /** Blanks, tabs and line ends around a text are taken off. */
  lemma {:induction false} TrimIs(pad: string, t: string, trail: string)
    requires AllTrimmed(pad) && AllTrimmed(trail) && t != "" && t[0] !in " \r\t\n" && t[|t| - 1] !in " \r\t\n"
    ensures TimeParser.Trim(pad + t + trail) == t
    decreases |pad| + |trail|
  {
    var cell := pad + t + trail;
    if pad != "" {
      assert cell[0] == pad[0] && cell[1..] == pad[1..] + t + trail;
      TrimIs(pad[1..], t, trail);
    } else if trail != "" {
      assert cell[0] == t[0] && cell[|cell| - 1] == trail[|trail| - 1];
      assert cell[..|cell| - 1] == pad + t + trail[..|trail| - 1];
      TrimIs(pad, t, trail[..|trail| - 1]);
    } else {
      assert cell == t;
    }
  }

  // ---- the pieces of the grammar, spelled out ----

  /** A numeral is digits, or digits, a dot and perhaps more digits. */
  lemma {:induction false} NumeralShape(whole: string, fraction: string)
    requires whole != "" && AllDigits(whole) && AllDigits(fraction)
    ensures IsNumeral(whole) && IsNumeral(whole + ['.'] + fraction)
    ensures !IsNumeral(['.'] + whole) && !IsNumeral(whole + ['.'] + fraction + ['.'])
  {
    var s := whole + ['.'] + fraction;
    assert forall i :: 0 <= i < |s| && i != |whole| ==> IsDigit(s[i]);
    assert s[|whole|] == '.';
    var t := s + ['.'];
    assert t[|whole|] == '.' && t[|s|] == '.';
    assert (['.'] + whole)[0] == '.';
  }

  /** Commas inside of a word do not matter for what it names, and are counted in a byte. */
  lemma {:induction false} CommasInside(a: string, b: string)
    ensures Letters(a + [','] + b) == Letters(a) + Letters(b)
    ensures CommasAfter(0, a + [','] + b) == (CommasAfter(0, a) + 1 + CommasAfter(0, b)) % 256
    decreases |b|
  {
    var t := a + [','];
    assert t[..|a|] == a;
    if b == "" {
      assert t + b == t;
    } else {
      var front := b[..|b| - 1];
      var w := t + b;
      assert w[..|w| - 1] == t + front;
      CommasInside(a, front);
    }
  }

  lemma {:induction false} ColonsAre(t: string, n: nat)
    requires n == multiset(t)[':']
    ensures Colons(t, 0) == n
    decreases |t|
  {
    if t != "" {
      var rest := t[1..];
      assert t == [t[0]] + rest;
      ColonsAre(rest, multiset(rest)[':']);
      ColonsShift([t[0]], rest, 0);
    }
  }

  /** Refused before the scan: a single character, an 'h' beside a ':', more than three of these, and with three of
      them a 'w' or a 'd'. */
  lemma {:induction false} Refused(t: string)
    requires var colons := multiset(t)[':'];
      |t| < 2 || ('h' in t && colons > 0) || colons > 3 || (colons == 3 && ('w' in t || 'd' in t))
    ensures Parse(t) == None
  {
    ColonsAre(t, multiset(t)[':']);
    hide Colons, Run;
  }
}
