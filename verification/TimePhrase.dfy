/**
 The grammar of timedelta texts: numbers with their units, spaced and punctuated in every way the
 scanner lets pass, and a clock behind them. Every text of the grammar is accepted and read exactly,
 save for the clashes that are looked for before the scan.
 */
module TimePhrase {
  import opened Text
  import opened TimeScan

  /** A number and its unit: what stands between the two, the word as written, perhaps with commas in it,
      and what stands between the word and the next number. */
  datatype Unit = Unit(num: string, gap: string, word: string, sep: string)

  /** Blanks and commas, the first not a comma. */
  predicate Separator(x: string) {
    (x != "" ==> x[0] != ',') && forall k :: 0 <= k < |x| ==> IsSpace(x[k]) || x[k] == ','
  }

  function CommaCount(x: string): nat {
    if x == "" then 0 else (if x[0] == ',' then 1 else 0) + CommaCount(x[1..])
  }

  predicate WordOk(word: string) {
    word != "" && IsAlpha(word[0]) && forall k :: 0 <= k < |word| ==> IsAlpha(word[k]) || word[k] == ','
  }

  /** A unit is known and not above group `from`; one comma may stand in front of its word. */
  predicate UnitOk(u: Unit, from: nat)
    requires from <= |SYMBOLS|
  {
    && IsNumeral(u.num) && WordOk(u.word) && GroupOf(from, Letters(u.word)) < |SYMBOLS|
    && Separator(u.gap) && CommaCount(u.gap) <= 1
  }

  /** Between one number and the next there may be one comma, those inside the word counted modulo 256. */
  predicate SepOk(u: Unit) {
    Separator(u.sep) && CommaCount(u.gap) <= 1 && CommasAfter(CommaCount(u.gap), u.word) + CommaCount(u.sep) <= 1
  }

  /** Nothing stands behind the last word, and there its commas are not counted. */
  predicate EndOk(u: Unit) {
    u.sep == "" && u.word != "" && IsAlpha(u.word[|u.word| - 1])
  }

  /** Known units in strictly descending order, none larger than group `from`, followed by a clock or not. */
  predicate UnitsOk(units: seq<Unit>, from: nat, clock: bool)
    requires from <= |SYMBOLS|
  {
    units == [] ||
    (UnitOk(units[0], from) && (if |units| > 1 || clock then SepOk(units[0]) else EndOk(units[0]))
     && UnitsOk(units[1..], GroupOf(from, Letters(units[0].word)) + 1, clock))
  }

  /** The last time field of a text that ends with it: two digits, then possibly a dot and more digits. */
  predicate LastFieldOk(f: string) {
    IsNumeral(f) && IsDigit(f[|f| - 1]) && Find(f, '.', 0) == 2
  }

  predicate AllSpace(x: string) { forall k :: 0 <= k < |x| ==> IsSpace(x[k]) }

  /** Middle fields have two digits. With white space behind it, the last one may be any number. */
  predicate FieldsOk(fields: seq<string>, trail: string) {
    fields != [] &&
    if |fields| == 1 then
      if trail == "" then LastFieldOk(fields[0]) else IsNumeral(fields[0]) && AllSpace(trail)
    else |fields[0]| == 2 && AllDigits(fields[0]) && FieldsOk(fields[1..], trail)
  }

  /** Nothing, or a first field of any length and one to three more. */
  predicate ClockOk(clock: seq<string>, trail: string) {
    if clock == [] then trail == ""
    else 2 <= |clock| <= 4 && clock[0] != "" && AllDigits(clock[0]) && FieldsOk(clock[1..], trail)
  }

  function FieldsText(fields: seq<string>, trail: string): string {
    if fields == [] then trail else ":" + fields[0] + FieldsText(fields[1..], trail)
  }

  function ClockText(clock: seq<string>, trail: string): string {
    if clock == [] then trail else clock[0] + FieldsText(clock[1..], trail)
  }

  function UnitText(u: Unit): string { u.num + u.gap + u.word + u.sep }

  /** Units with `tail` behind them. */
  function Phrase(units: seq<Unit>, tail: string): string {
    if units == [] then tail
    else UnitText(units[0]) + Phrase(units[1..], tail)
  }

  function UnitAddend(u: Unit): Addend { Addend(u.num, Weight(Letters(u.word))) }

  function UnitAddends(units: seq<Unit>): seq<Addend> {
    if units == [] then [] else [UnitAddend(units[0])] + UnitAddends(units[1..])
  }

  function FieldAddends(fields: seq<string>, weights: seq<nat>): seq<Addend>
    requires |fields| == |weights|
  {
    if fields == [] then [] else [Addend(fields[0], weights[0])] + FieldAddends(fields[1..], weights[1..])
  }

  // ---- where runs of characters end ----

  /** `x` is written in `t` from `i` on. */
  ghost predicate At(t: string, i: nat, x: string) {
    i + |x| <= |t| && t[i..i + |x|] == x
  }

  lemma {:induction false} AtSplit(t: string, i: nat, x: string, y: string)
    requires At(t, i, x + y)
    ensures At(t, i, x) && At(t, i + |x|, y)
  {
    var w := t[i..i + |x + y|];
    assert w == x + y;
    assert t[i..i + |x|] == w[..|x|];
    assert t[i + |x|..i + |x| + |y|] == w[|x|..];
  }

  lemma {:induction false} AtIndex(t: string, i: nat, x: string, k: nat)
    requires At(t, i, x) && k < |x|
    ensures t[i + k] == x[k]
  {
    assert t[i..i + |x|][k] == t[i + k];
  }

  lemma {:induction false} SplitAt(t: string, i: nat, x: string, y: string)
    requires i <= |t| && t[i..] == x + y
    ensures At(t, i, x) && t[i + |x|..] == y
  {
    var w := t[i..];
    assert t[i..i + |x|] == w[..|x|] == x;
    assert t[i + |x|..] == w[|x|..] == y;
  }

  lemma {:induction false} NumEndAt(t: string, i: nat, r: nat, dots: nat)
    requires i <= r <= |t| && dots <= 1 && forall k :: i <= k < r ==> IsNumChar(t[k])
    requires dots == 1 ==> forall k :: i <= k < r ==> t[k] != '.'
    requires OneDot(t[i..r])
    requires r < |t| ==> !IsNumChar(t[r])
    ensures NumEnd(t, i, dots) == r
    decreases r - i
  {
    if i < r {
      var s := t[i..r];
      assert s[0] == t[i] && t[i + 1..r] == s[1..];
      assert forall k :: i + 1 <= k < r ==> s[k - i] == t[k];
      assert OneDot(s[1..]) by {
        assert forall k :: 0 <= k < |s| - 1 ==> s[1..][k] == s[k + 1];
      }
      NumEndAt(t, i + 1, r, if t[i] == '.' then dots + 1 else dots);
    }
  }

  /** A numeral written at `i` and followed by something else ends where it should. */
  lemma {:induction false} NumeralEnds(t: string, i: nat, num: string)
    requires At(t, i, num) && IsNumeral(num)
    requires i + |num| < |t| ==> !IsNumChar(t[i + |num|])
    ensures IsDigit(t[i]) && NumEnd(t, i + 1, 0) == i + |num|
  {
    var r := i + |num|;
    assert forall k :: i <= k < r ==> t[k] == num[k - i];
    var rest := t[i + 1..r];
    assert forall k :: 0 <= k < |rest| ==> rest[k] == num[k + 1];
    NumEndAt(t, i + 1, r, 0);
  }

  lemma {:induction false} DigitsAreNumeral(s: string)
    requires s != "" && AllDigits(s)
    ensures IsNumeral(s) && '.' !in s
  {
  }

  lemma {:induction false} WordEndAt(t: string, i: nat, r: nat)
    requires i <= r <= |t| && forall k :: i <= k < r ==> IsAlpha(t[k]) || t[k] == ','
    requires r < |t| ==> !IsAlpha(t[r]) && t[r] != ','
    ensures WordEnd(t, i) == r
    decreases r - i
  {
    if i < r { WordEndAt(t, i + 1, r); }
  }

  lemma {:induction false} OnlySpaceIs(t: string, i: nat)
    requires i <= |t| && forall k :: i <= k < |t| ==> IsSpace(t[k])
    ensures OnlySpace(t, i)
    decreases |t| - i
  {
    if i < |t| { OnlySpaceIs(t, i + 1); }
  }

  // ---- separators ----

  /** How far the loop of `space_fun` gets over blanks and commas. */
  lemma {:induction false} SkipIs(t: string, cursor: nat, c: char, commas: nat, i: nat)
    requires cursor <= i < |t| && commas <= 1 && !IsSpace(t[i]) && t[i] != ','
    requires forall k :: cursor <= k < i ==> IsSpace(t[k]) || t[k] == ','
    ensures var n := commas + (if c == ',' then 1 else 0) + CommaCount(t[cursor..i]);
      Skip(t, cursor, c, commas) == if n <= 1 then Some((i + 1, n)) else None
    decreases i - cursor
  {
    var commas' := if c == ',' then commas + 1 else commas;
    if cursor < i {
      assert t[cursor..i][1..] == t[cursor + 1..i];
      if commas' <= 1 { SkipIs(t, cursor + 1, t[cursor], commas', i); }
    }
  }

  /** Called on a character already looked at, `space_fun` counts it again: it must not be a comma. */
  lemma {:induction false} SpaceFunIs(t: string, s: State, i: nat)
    requires s.cursor <= i < |t| && s.c == t[s.cursor] && !IsSpace(t[i]) && t[i] != ','
    requires forall k :: s.cursor <= k < i ==> IsSpace(t[k]) || t[k] == ','
    ensures var x := t[s.cursor..i];
      SpaceFun(t, s)
      == if Separator(x) && s.commas + CommaCount(x) <= 1 then Some((i + 1, s.commas + CommaCount(x))) else None
  {
    if s.commas <= 1 { SkipIs(t, s.cursor, s.c, s.commas, i); }
  }

  // ---- single turns on well-formed text ----

  /** The scanner is about to read a number at `i`: at the very start, or behind a separator. */
  ghost predicate Before(t: string, s: State, i: nat) {
    && Inv(t, s) && s.phase == Digit && s.cursor <= i < |t| && IsDigit(t[i])
    && (if s.started
        then s.c == t[s.cursor] && Separator(t[s.cursor..i]) && s.commas + CommaCount(t[s.cursor..i]) <= 1
        else i == s.cursor)
  }

  lemma {:induction false} SeparatorChars(t: string, i: nat, j: nat)
    requires i <= j <= |t| && Separator(t[i..j])
    ensures forall k :: i <= k < j ==> IsSpace(t[k]) || t[k] == ','
  {
    forall k | i <= k < j
      ensures IsSpace(t[k]) || t[k] == ','
    {
      assert t[k] == t[i..j][k - i];
    }
  }

  lemma {:induction false} BeforeSkips(t: string, s: State, i: nat)
    requires Before(t, s, i) && s.started
    ensures SpaceFun(t, s).Some? && SpaceFun(t, s).value.0 == i + 1
  {
    SeparatorChars(t, s.cursor, i);
    SpaceFunIs(t, s, i);
  }

  lemma {:induction false} DigitAt(t: string, s: State, i: nat, num: string)
    requires Before(t, s, i) && At(t, i, num) && IsNumeral(num)
    requires i + |num| < |t| && !IsNumChar(t[i + |num|])
    ensures var j := i + |num|;
      if t[j] != ':' then
        DigitFun(t, s) == Some(s.(cursor := j, c := t[j], started := true, commas := 0, phase := Word, recent := num))
      else '.' !in num ==>
        && DigitFun(t, s).Some? && s.secs != []
        && var s' := DigitFun(t, s).value;
          && Inv(t, s') && s'.cursor == j && s'.phase == CompleteTime && s'.secs == s.secs[1..]
          && s'.addends == s.addends + [Addend(num, s.secs[0])]
  {
    NumeralEnds(t, i, num);
    if s.started { BeforeSkips(t, s, i); }
    hide SpaceFun, Separator, CommaCount, NumEnd;
    if DigitFun(t, s).Some? { DigitProgress(t, s); }
    ColonsFrom(t, s.cursor, i + |num|);
    if t[i + |num|] == ':' { ColonsFrom(t, i + |num|, |t|); }
  }

  /** The unit that `cursor` is about to reach behind its number. */
  ghost predicate WordNext(t: string, s: State, u: Unit) {
    && Inv(t, s) && s.phase == Word && s.cursor < |t| && s.c == t[s.cursor] && s.commas == 0
    && UnitOk(u, s.group)
    && At(t, s.cursor, u.gap) && At(t, s.cursor + |u.gap|, u.word)
  }

  lemma {:induction false} WordNextChars(t: string, s: State, u: Unit)
    requires WordNext(t, s, u)
    ensures var i := s.cursor + |u.gap|;
      && i < |t| && IsAlpha(t[i]) && SpaceFun(t, s) == Some((i + 1, CommaCount(u.gap)))
      && (forall k :: i <= k < i + |u.word| ==> IsAlpha(t[k]) || t[k] == ',')
  {
    var i := s.cursor + |u.gap|;
    forall k | i <= k < i + |u.word|
      ensures IsAlpha(t[k]) || t[k] == ','
    {
      AtIndex(t, i, u.word, k - i);
    }
    AtIndex(t, i, u.word, 0);
    SeparatorChars(t, s.cursor, i);
    SpaceFunIs(t, s, i);
  }

  lemma {:induction false} LastWordAt(t: string, s: State, u: Unit)
    requires WordNext(t, s, u) && s.cursor + |u.gap| + |u.word| == |t| && EndOk(u)
    ensures WordFun(t, s).Some?
    ensures var s' := WordFun(t, s).value;
      Inv(t, s') && s'.cursor == |t| && s'.addends == s.addends + [Addend(s.recent, Weight(Letters(u.word)))]
  {
    var i := s.cursor + |u.gap|;
    hide Weight, GroupOf, Colons, Letters, CommasAfter, WordEnd, Skip, SpaceFun, CommaCount, Separator;
    WordNextChars(t, s, u);
    WordEndAt(t, i + 1, |t|);
    assert t[i..|t|] == u.word;
    AtIndex(t, i, u.word, |u.word| - 1);
    WordProgress(t, s);
  }

  lemma {:induction false} WordAt(t: string, s: State, u: Unit)
    requires WordNext(t, s, u)
    requires var k := s.cursor + |u.gap| + |u.word|; k < |t| && !IsAlpha(t[k]) && t[k] != ','
    ensures WordFun(t, s).Some?
    ensures var s' := WordFun(t, s).value;
      && Inv(t, s') && s'.group == GroupOf(s.group, Letters(u.word)) + 1 && s'.secs == s.secs && s'.started == s.started
      && s'.addends == s.addends + [Addend(s.recent, Weight(Letters(u.word)))]
      && s'.cursor == s.cursor + |u.gap| + |u.word| && s'.phase == Digit && s'.c == t[s'.cursor]
      && s'.commas == CommasAfter(CommaCount(u.gap), u.word)
  {
    var i := s.cursor + |u.gap|;
    var k := i + |u.word|;
    hide Weight, GroupOf, Colons, Letters, CommasAfter, WordEnd, Skip, SpaceFun, CommaCount, Separator;
    WordNextChars(t, s, u);
    WordEndAt(t, i + 1, k);
    assert t[i..k] == u.word;
    WordProgress(t, s);
  }

  lemma {:induction false} MiddleFieldAt(t: string, s: State, f: string)
    requires Inv(t, s) && s.phase == CompleteTime && s.cursor < |t| && At(t, s.cursor, ":" + f + ":")
    requires |f| == 2 && AllDigits(f)
    ensures CompleteTimeFun(t, s).Some? && s.secs != []
    ensures var s' := CompleteTimeFun(t, s).value;
      && Inv(t, s') && s'.phase == CompleteTime && s'.cursor == s.cursor + 3 && s'.secs == s.secs[1..]
      && s'.addends == s.addends + [Addend(f, s.secs[0])]
  {
    AtSplit(t, s.cursor, ":" + f, ":");
    AtSplit(t, s.cursor, ":", f);
    DigitsAreNumeral(f);
    var j := s.cursor + 3;
    assert t[j] == t[j..j + 1][0];
    NumeralEnds(t, s.cursor + 1, f);
    ColonsFrom(t, s.cursor, s.cursor + 1);
    CompleteTimeProgress(t, s);
  }

  lemma {:induction false} LastFieldAt(t: string, s: State, f: string, trail: string)
    requires Inv(t, s) && s.phase == CompleteTime && s.cursor < |t| && At(t, s.cursor, ":" + f)
    requires FieldsOk([f], trail) && t[s.cursor + 1 + |f|..] == trail
    ensures CompleteTimeFun(t, s).Some? && s.secs != []
    ensures var s' := CompleteTimeFun(t, s).value;
      Inv(t, s') && s'.cursor == |t| && s'.addends == s.addends + [Addend(f, s.secs[0])]
  {
    var j := s.cursor + 1 + |f|;
    AtSplit(t, s.cursor, ":", f);
    if trail != "" {
      assert forall k :: j <= k < |t| ==> t[k] == trail[k - j];
      OnlySpaceIs(t, j);
    }
    NumeralEnds(t, s.cursor + 1, f);
    ColonsFrom(t, s.cursor, s.cursor + 1);
    if trail == "" { assert t[|t| - 1] == t[s.cursor + 1..|t|][|f| - 1]; }
    CompleteTimeProgress(t, s);
  }

  // ---- whole runs ----

  /** `r` is a run that succeeds and reads exactly `more` after `s`. */
  ghost predicate Adds(r: Option<State>, s: State, more: seq<Addend>) {
    r.Some? && r.value.addends == s.addends + more
  }

  lemma {:induction false} AddsStep(r: Option<State>, s: State, s': State, a: seq<Addend>, more: seq<Addend>)
    requires s'.addends == s.addends + a && Adds(r, s', more)
    ensures Adds(r, s, a + more)
  {
    Assoc(s.addends, a, more);
  }

  lemma {:induction false} FieldsSplit(t: string, i: nat, fields: seq<string>, trail: string)
    requires i <= |t| && t[i..] == FieldsText(fields, trail) && fields != []
    ensures At(t, i, ":" + fields[0])
    ensures i + 1 + |fields[0]| <= |t| && t[i + 1 + |fields[0]|..] == FieldsText(fields[1..], trail)
    ensures |fields| > 1 ==> At(t, i, ":" + fields[0] + ":")
  {
    var lead := ":" + fields[0];
    var rest := FieldsText(fields[1..], trail);
    SplitAt(t, i, lead, rest);
    if |fields| > 1 {
      assert rest[0] == ':';
      assert t[i..i + |lead| + 1] == t[i..][..|lead| + 1] == lead + ":";
    }
  }

  ghost predicate FieldsNext(t: string, s: State, fields: seq<string>, trail: string) {
    && Inv(t, s) && s.phase == CompleteTime && s.cursor < |t| && FieldsOk(fields, trail) && |s.secs| == |fields|
    && t[s.cursor..] == FieldsText(fields, trail)
  }

  lemma {:induction false} LastFieldRun(t: string, s: State, fields: seq<string>, trail: string)
    requires FieldsNext(t, s, fields, trail) && |fields| == 1
    ensures Adds(Run(t, s), s, FieldAddends(fields, s.secs))
  {
    FieldsSplit(t, s.cursor, fields, trail);
    assert fields == [fields[0]];
    LastFieldAt(t, s, fields[0], trail);
    RunStep(t, s, CompleteTimeFun(t, s).value);
    assert FieldAddends(fields, s.secs) == [Addend(fields[0], s.secs[0])];
  }

  lemma {:induction false} FieldStep(t: string, s: State, fields: seq<string>, trail: string) returns (s': State)
    requires FieldsNext(t, s, fields, trail) && |fields| > 1
    ensures FieldsNext(t, s', fields[1..], trail) && s'.secs == s.secs[1..]
    ensures s'.addends == s.addends + [Addend(fields[0], s.secs[0])]
    ensures Run(t, s) == Run(t, s')
  {
    FieldsSplit(t, s.cursor, fields, trail);
    MiddleFieldAt(t, s, fields[0]);
    s' := CompleteTimeFun(t, s).value;
    RunStep(t, s, s');
  }

  lemma {:induction false} FieldsRun(t: string, s: State, fields: seq<string>, trail: string)
    requires FieldsNext(t, s, fields, trail)
    ensures Adds(Run(t, s), s, FieldAddends(fields, s.secs))
    decreases |fields|
  {
    if |fields| == 1 {
      LastFieldRun(t, s, fields, trail);
    } else {
      var s' := FieldStep(t, s, fields, trail);
      FieldsRun(t, s', fields[1..], trail);
      AddsStep(Run(t, s'), s, s', [Addend(fields[0], s.secs[0])], FieldAddends(fields[1..], s'.secs));
    }
  }

  lemma {:induction false} ClockSplit(t: string, i: nat, clock: seq<string>, trail: string)
    requires i <= |t| && t[i..] == ClockText(clock, trail) && ClockOk(clock, trail) && clock != []
    ensures At(t, i, clock[0]) && i + |clock[0]| < |t| && t[i + |clock[0]|] == ':'
    ensures t[i + |clock[0]|..] == FieldsText(clock[1..], trail)
  {
    var rest := FieldsText(clock[1..], trail);
    assert rest[0] == ':';
    SplitAt(t, i, clock[0], rest);
    assert t[i + |clock[0]|..][0] == ':';
  }

  lemma {:induction false} ClockRun(t: string, s: State, i: nat, clock: seq<string>, trail: string)
    requires Before(t, s, i) && t[i..] == ClockText(clock, trail)
    requires ClockOk(clock, trail) && clock != [] && |s.secs| == |clock|
    ensures Adds(Run(t, s), s, FieldAddends(clock, s.secs))
  {
    ClockSplit(t, i, clock, trail);
    DigitsAreNumeral(clock[0]);
    DigitAt(t, s, i, clock[0]);
    var s' := DigitFun(t, s).value;
    RunStep(t, s, s');
    FieldsRun(t, s', clock[1..], trail);
    AddsStep(Run(t, s'), s, s', [Addend(clock[0], s.secs[0])], FieldAddends(clock[1..], s'.secs));
  }

  /** `u` is written in `t` from `i` on. */
  ghost predicate UnitAt(t: string, i: nat, u: Unit) {
    && At(t, i, u.num) && At(t, i + |u.num|, u.gap) && At(t, i + |u.num| + |u.gap|, u.word)
    && At(t, i + |u.num| + |u.gap| + |u.word|, u.sep)
  }

  lemma {:induction false} UnitSplit(t: string, i: nat, u: Unit, rest: string)
    requires i <= |t| && t[i..] == UnitText(u) + rest
    ensures UnitAt(t, i, u)
    ensures var j := i + |UnitText(u)|;
      t[j..] == rest && (if rest == "" then j == |t| else j < |t| && t[j] == rest[0])
  {
    var j := i + |u.num|;
    var k := j + |u.gap| + |u.word|;
    assert t[i..] == u.num + (u.gap + (u.word + (u.sep + rest))) by { Nested(u.num, u.gap, u.word, u.sep, rest); }
    SplitAt(t, i, u.num, u.gap + (u.word + (u.sep + rest)));
    SplitAt(t, j, u.gap, u.word + (u.sep + rest));
    SplitAt(t, j + |u.gap|, u.word, u.sep + rest);
    SplitAt(t, k, u.sep, rest);
    assert rest == t[k + |u.sep|..];
  }

  lemma {:induction false} Nested<T>(a: seq<T>, b: seq<T>, c: seq<T>, d: seq<T>, e: seq<T>)
    ensures a + b + c + d + e == a + (b + (c + (d + e)))
  {
  }

  /** A clock, or nothing, behind units. */
  predicate TailOk(tail: string) { tail == "" || IsDigit(tail[0]) }

  lemma {:induction false} PhraseStart(units: seq<Unit>, from: nat, tail: string)
    requires from <= |SYMBOLS| && UnitsOk(units, from, tail != "") && TailOk(tail) && (units != [] || tail != "")
    ensures Phrase(units, tail) != "" && IsDigit(Phrase(units, tail)[0])
  {
  }

  /** A blank or a letter stands behind the number of a unit. */
  lemma {:induction false} AfterNumber(t: string, i: nat, u: Unit, from: nat)
    requires from <= |SYMBOLS| && UnitOk(u, from) && UnitAt(t, i, u)
    ensures var j := i + |u.num|; j < |t| && !IsNumChar(t[j]) && t[j] != ':'
  {
    hide GroupOf, Letters, CommaCount;
    var j := i + |u.num|;
    AtIndex(t, j + |u.gap|, u.word, 0);
    if u.gap != "" { AtIndex(t, j, u.gap, 0); }
  }

  /** The turn that reads the number of a unit. */
  lemma {:induction false} UnitNumber(t: string, s: State, i: nat, u: Unit) returns (s1: State)
    requires Before(t, s, i) && UnitOk(u, s.group) && UnitAt(t, i, u)
    ensures WordNext(t, s1, u) && Run(t, s) == Run(t, s1) && s1.cursor == i + |u.num|
    ensures s1.recent == u.num && s1.started && s1.secs == s.secs && s1.group == s.group && s1.addends == s.addends
  {
    hide Run, Colons, GroupOf, Letters, CommaCount, Separator, At, IsNumeral, WordOk, DigitFun;
    AfterNumber(t, i, u, s.group);
    DigitAt(t, s, i, u.num);
    s1 := DigitFun(t, s).value;
    RunStep(t, s, s1);
  }

  /** Behind a unit that is not the last, the scanner is about to read the next number. */
  lemma {:induction false} NextNumber(t: string, s: State, i: nat, u: Unit)
    requires Inv(t, s) && s.phase == Digit && s.cursor + |u.sep| == i < |t| && IsDigit(t[i])
    requires s.c == t[s.cursor] && s.started && SepOk(u) && s.commas == CommasAfter(CommaCount(u.gap), u.word)
    requires At(t, s.cursor, u.sep)
    ensures Before(t, s, i)
  {
  }

  /** The turn that reads its word and goes on to the next number. */
  lemma {:induction false} UnitWord(t: string, i: nat, s1: State, u: Unit) returns (s2: State)
    requires WordNext(t, s1, u) && s1.started && UnitAt(t, i, u) && s1.cursor == i + |u.num|
    requires var j := i + |UnitText(u)|; if j < |t| then SepOk(u) && IsDigit(t[j]) else EndOk(u)
    ensures Inv(t, s2) && Run(t, s1) == Run(t, s2) && s2.secs == s1.secs
    ensures s2.addends == s1.addends + [Addend(s1.recent, Weight(Letters(u.word)))]
    ensures var j := i + |UnitText(u)|;
      if j < |t| then s2.group == GroupOf(s1.group, Letters(u.word)) + 1 && Before(t, s2, j)
      else s2.cursor == |t|
  {
    hide WordFun, Colons, Weight, GroupOf, CommasAfter, CommaCount, Letters, Run, Separator, UnitOk;
    var k := s1.cursor + |u.gap| + |u.word|;
    if k + |u.sep| == |t| {
      LastWordAt(t, s1, u);
    } else {
      Follows(t, k, u);
      WordAt(t, s1, u);
      NextNumber(t, WordFun(t, s1).value, k + |u.sep|, u);
    }
    s2 := WordFun(t, s1).value;
    RunStep(t, s1, s2);
  }

  lemma {:induction false} UnitsHead(units: seq<Unit>, from: nat, tail: string)
    requires from <= |SYMBOLS| && UnitsOk(units, from, tail != "") && units != [] && TailOk(tail)
    ensures UnitOk(units[0], from) && UnitsOk(units[1..], GroupOf(from, Letters(units[0].word)) + 1, tail != "")
    ensures var rest := Phrase(units[1..], tail);
      if |units| == 1 && tail == "" then rest == "" && EndOk(units[0])
      else rest != "" && IsDigit(rest[0]) && SepOk(units[0])
    ensures Phrase(units, tail) == UnitText(units[0]) + Phrase(units[1..], tail)
  {
    if |units| > 1 || tail != "" { PhraseStart(units[1..], GroupOf(from, Letters(units[0].word)) + 1, tail); }
  }

  /** The two turns that read one unit. */
  lemma {:induction false} UnitStep(t: string, s: State, i: nat, u: Unit) returns (s2: State)
    requires Before(t, s, i) && UnitAt(t, i, u) && UnitOk(u, s.group)
    requires var j := i + |UnitText(u)|; if j < |t| then SepOk(u) && IsDigit(t[j]) else EndOk(u)
    ensures Inv(t, s2) && Run(t, s) == Run(t, s2) && s2.secs == s.secs
    ensures s2.addends == s.addends + [UnitAddend(u)]
    ensures var j := i + |UnitText(u)|;
      if j < |t| then s2.group == GroupOf(s.group, Letters(u.word)) + 1 && Before(t, s2, j) else s2.cursor == |t|
  {
    hide Inv, Colons, Weight, GroupOf, CommasAfter, CommaCount, Letters, Separator, Run, At, IsNumeral,
      WordOk, UnitText;
    var s1 := UnitNumber(t, s, i, u);
    s2 := UnitWord(t, i, s1, u);
  }

  /** A word ends where its separator or the next number begins. */
  lemma {:induction false} Follows(t: string, k: nat, u: Unit)
    requires At(t, k, u.sep) && k + |u.sep| < |t| && IsDigit(t[k + |u.sep|]) && SepOk(u)
    ensures !IsAlpha(t[k]) && t[k] != ','
  {
    if u.sep != "" { AtIndex(t, k, u.sep, 0); }
  }

  /** The scanner is about to read a phrase. */
  ghost predicate PhraseNext(t: string, s: State, i: nat, units: seq<Unit>, clock: seq<string>, trail: string) {
    && Before(t, s, i) && t[i..] == Phrase(units, ClockText(clock, trail)) && (units != [] || clock != [])
    && UnitsOk(units, s.group, clock != []) && ClockOk(clock, trail) && |s.secs| == |clock|
  }

  lemma {:induction false} BeforeBounds(t: string, s: State, i: nat)
    requires Before(t, s, i)
    ensures s.group <= |SYMBOLS| && i < |t|
  {
  }

  lemma {:induction false} FirstUnit(t: string, s: State, i: nat, units: seq<Unit>, clock: seq<string>, trail: string)
    returns (s': State)
    requires PhraseNext(t, s, i, units, clock, trail) && units != []
    ensures Inv(t, s') && Run(t, s) == Run(t, s') && s'.secs == s.secs
    ensures s'.addends == s.addends + [UnitAddend(units[0])]
    ensures if |units| == 1 && clock == [] then s'.cursor == |t|
      else PhraseNext(t, s', i + |UnitText(units[0])|, units[1..], clock, trail)
  {
    hide Inv, Colons, Weight, GroupOf, CommasAfter, CommaCount, Letters, Run, UnitText, Phrase, ClockText, ClockOk,
      UnitsOk, Before, UnitAt, UnitOk, SepOk, EndOk, UnitAddend, TailOk;
    var tail := ClockText(clock, trail);
    BeforeBounds(t, s, i);
    ClockTail(clock, trail);
    UnitsHead(units, s.group, tail);
    UnitSplit(t, i, units[0], Phrase(units[1..], tail));
    s' := UnitStep(t, s, i, units[0]);
  }

  lemma {:induction false} PhraseRun(t: string, s: State, i: nat, units: seq<Unit>, clock: seq<string>, trail: string)
    requires PhraseNext(t, s, i, units, clock, trail)
    ensures Adds(Run(t, s), s, UnitAddends(units) + FieldAddends(clock, s.secs))
    decreases |units|
  {
    hide Run, Inv, Before, UnitText, UnitAddend, Weight, Letters, Phrase, UnitsOk, ClockOk, ClockText, Colons;
    if units == [] {
      NoUnits(clock, s.secs, trail);
      ClockRun(t, s, i, clock, trail);
    } else {
      var s' := FirstUnit(t, s, i, units, clock, trail);
      if |units| == 1 && clock == [] {
        RunEnd(t, s');
      } else {
        PhraseRun(t, s', i + |UnitText(units[0])|, units[1..], clock, trail);
      }
      MoreAddends(units, FieldAddends(clock, s.secs));
      AddsStep(Run(t, s'), s, s', [UnitAddend(units[0])], UnitAddends(units[1..]) + FieldAddends(clock, s.secs));
    }
  }

  lemma {:induction false} NoUnits(clock: seq<string>, weights: seq<nat>, trail: string)
    requires |clock| == |weights|
    ensures UnitAddends([]) + FieldAddends(clock, weights) == FieldAddends(clock, weights)
    ensures Phrase([], ClockText(clock, trail)) == ClockText(clock, trail)
  {
  }

  lemma {:induction false} MoreAddends(units: seq<Unit>, behind: seq<Addend>)
    requires units != []
    ensures UnitAddends(units) + behind == [UnitAddend(units[0])] + (UnitAddends(units[1..]) + behind)
    ensures |units| == 1 && behind == [] ==> UnitAddends(units[1..]) + behind == []
  {
    Assoc([UnitAddend(units[0])], UnitAddends(units[1..]), behind);
  }

  lemma {:induction false} ClockTail(clock: seq<string>, trail: string)
    requires ClockOk(clock, trail)
    ensures TailOk(ClockText(clock, trail)) && (ClockText(clock, trail) != "" <==> clock != [])
  {
  }

  // ---- the tests made before the loop ----

  lemma {:induction false} ColonsShift(a: string, b: string, k: nat)
    requires k <= |b|
    ensures Colons(a + b, |a| + k) == Colons(b, k)
    decreases |b| - k
  {
    if k < |b| { ColonsShift(a, b, k + 1); }
  }

  lemma {:induction false} ColonsAppendFrom(a: string, b: string, i: nat)
    requires i <= |a|
    ensures Colons(a + b, i) == Colons(a, i) + Colons(b, 0)
    decreases |a| - i
  {
    if i == |a| { ColonsShift(a, b, 0); } else { ColonsAppendFrom(a, b, i + 1); }
  }

  lemma {:induction false} ColonsFree(a: string, i: nat)
    requires i <= |a| && forall k :: i <= k < |a| ==> a[k] != ':'
    ensures Colons(a, i) == 0
    decreases |a| - i
  {
    if i < |a| { ColonsFree(a, i + 1); }
  }

  lemma {:induction false} ColonsBehind(a: string, b: string)
    requires forall k :: 0 <= k < |a| ==> a[k] != ':'
    ensures Colons(a + b, 0) == Colons(b, 0)
  {
    ColonsFree(a, 0);
    ColonsAppendFrom(a, b, 0);
  }

  lemma {:induction false} FieldsColons(fields: seq<string>, trail: string)
    requires FieldsOk(fields, trail)
    ensures Colons(FieldsText(fields, trail), 0) == |fields|
  {
    var rest := FieldsText(fields[1..], trail);
    var f := fields[0];
    assert FieldsText(fields, trail) == ":" + (f + rest);
    ColonsAppendFrom(":", f + rest, 0);
    assert Colons(":", 0) == 1 + Colons(":", 1);
    ColonsBehind(f, rest);
    if |fields| > 1 { FieldsColons(fields[1..], trail); } else { ColonsFree(trail, 0); }
  }

  lemma {:induction false} ClockColons(clock: seq<string>, trail: string)
    requires ClockOk(clock, trail)
    ensures Colons(ClockText(clock, trail), 0) == if clock == [] then 0 else |clock| - 1
  {
    if clock != [] {
      FieldsColons(clock[1..], trail);
      ColonsBehind(clock[0], FieldsText(clock[1..], trail));
    }
  }

  lemma {:induction false} UnitHasNoColon(u: Unit, from: nat)
    requires from <= |SYMBOLS| && UnitOk(u, from) && Separator(u.sep)
    ensures var x := UnitText(u); forall k :: 0 <= k < |x| ==> x[k] != ':'
  {
    hide GroupOf, Letters, CommaCount;
  }

  lemma {:induction false} PhraseColons(units: seq<Unit>, from: nat, tail: string)
    requires from <= |SYMBOLS| && UnitsOk(units, from, tail != "")
    ensures Colons(Phrase(units, tail), 0) == Colons(tail, 0)
    decreases |units|
  {
    if units != [] {
      var x := UnitText(units[0]);
      UnitHasNoColon(units[0], from);
      ColonsBehind(x, Phrase(units[1..], tail));
      PhraseColons(units[1..], GroupOf(from, Letters(units[0].word)) + 1, tail);
    }
  }

  /** A text of the grammar. */
  datatype Spelling = Spelling(units: seq<Unit>, clock: seq<string>, trail: string) {
    predicate Ok() {
      UnitsOk(units, 0, clock != []) && ClockOk(clock, trail) && (units != [] || clock != [])
    }

    function Text(): string { Phrase(units, ClockText(clock, trail)) }

    /** The only texts refused: an 'h' beside a clock, and a 'w' or 'd' beside a clock of four fields. */
    predicate Clashes() {
      (clock != [] && 'h' in Text()) || (|clock| == 4 && ('w' in Text() || 'd' in Text()))
    }

    function Addends(): seq<Addend>
      requires |clock| <= 4
    {
      UnitAddends(units) + if |clock| <= 1 then [] else FieldAddends(clock, ClockWeights(|clock| - 1))
    }
  }

  lemma {:induction false} SpellingLength(p: Spelling)
    requires p.Ok()
    ensures |p.Text()| >= 2
  {
  }

  /** Every text of the grammar that does not clash is accepted and means the sum of its parts. */
  lemma {:induction false} PhraseAccepted(p: Spelling)
    requires p.Ok()
    ensures Parse(p.Text()) == if p.Clashes() then None else Some(Total(p.Addends()))
  {
    var t := p.Text();
    ClockTail(p.clock, p.trail);
    PhraseColons(p.units, 0, ClockText(p.clock, p.trail));
    ClockColons(p.clock, p.trail);
    SpellingLength(p);
    if !p.Clashes() {
      PhraseStart(p.units, 0, ClockText(p.clock, p.trail));
      hide Phrase, UnitsOk, ClockOk, Colons, Run, UnitAddends, FieldAddends;
      StartInv(t);
      var s := Start(t);
      assert t[0..] == t;
      PhraseRun(t, s, 0, p.units, p.clock, p.trail);
      assert [] + (UnitAddends(p.units) + FieldAddends(p.clock, s.secs)) == p.Addends();
    }
  }
}
