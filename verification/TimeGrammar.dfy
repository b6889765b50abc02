/** The converse: every timedelta text the scanner accepts is a text of the grammar, so the two are the same. */
module TimeGrammar {
  import opened Text
  import opened TimeScan
  import TimeMeaning
  import opened TimePhrase

  // ---- numerals ----

  lemma {:induction false} NumEndDots(t: string, i: nat, dots: nat)
    requires i <= |t| && dots <= 1
    ensures OneDot(t[i..NumEnd(t, i, dots)])
    ensures dots == 1 ==> '.' !in t[i..NumEnd(t, i, dots)]
    decreases |t| - i
  {
    var r := NumEnd(t, i, dots);
    if i < r {
      NumEndDots(t, i + 1, if t[i] == '.' then 1 else dots);
      assert t[i..r] == [t[i]] + t[i + 1..r];
    }
  }

  lemma {:induction false} NumeralFound(t: string, i: nat)
    requires i < |t| && IsDigit(t[i])
    ensures var j := NumEnd(t, i + 1, 0);
      IsNumeral(t[i..j]) && (forall k :: i <= k < j ==> IsNumChar(t[k])) && (j < |t| ==> !IsDigit(t[j]))
  {
    NumEndDots(t, i + 1, 0);
    NumEndChars(t, i + 1, 0);
    var j := NumEnd(t, i + 1, 0);
    assert t[i..j] == [t[i]] + t[i + 1..j];
  }

  // ---- single turns ----

  /** The scanner goes on from the last character it has looked at. */
  ghost predicate Going(t: string, s: State) {
    && Inv(t, s) && s.cursor < |t| && Colons(t, s.cursor) <= 3
    && (s.started ==> s.c == t[s.cursor])
  }

  lemma {:induction false} BeforeFound(t: string, s: State, i: nat)
    requires Going(t, s) && s.phase == Digit && DigitFun(t, s).Some?
    requires i == if s.started then SpaceFun(t, s).value.0 - 1 else s.cursor
    ensures Before(t, s, i)
  {
    if s.started {
      hide CommaCount, Separator;
      SkipChars(t, s.cursor, s.c, s.commas);
      SpaceFunIs(t, s, i);
    }
  }

  /** What a digit turn has read. */
  lemma {:induction false} DigitFound(t: string, s: State) returns (i: nat)
    requires Going(t, s) && s.phase == Digit && DigitFun(t, s).Some?
    ensures Before(t, s, i)
    ensures var s' := DigitFun(t, s).value;
      var j := i + |s'.recent|;
      && j <= |t| && t[i..j] == s'.recent && IsNumeral(s'.recent) && s'.cursor == Back(t, j)
      && s'.started && s'.group == s.group
      && (s'.phase == CompleteTime ==> j < |t| && t[j] == ':' && '.' !in s'.recent)
      && (s'.phase != CompleteTime ==>
        s'.phase == Word && s'.commas == 0 && s'.c == t[s'.cursor] && (j == |t| ==> IsNumChar(t[|t| - 1])))
  {
    hide Before, Inv, Colons, NumEnd, Separator, CommaCount;
    i := if s.started then SpaceFun(t, s).value.0 - 1 else s.cursor;
    BeforeFound(t, s, i);
    NumeralFound(t, i);
  }

  /** The word turn from `s` to `s'` has read the rest of unit `u`: its gap and its word. */
  ghost predicate WordDone(t: string, s: State, s': State, u: Unit) {
    var j := s.cursor + |u.gap| + |u.word|;
    && j <= |t| && s.group <= |SYMBOLS|
    && UnitOk(u, s.group) && At(t, s.cursor, u.gap) && At(t, s.cursor + |u.gap|, u.word)
    && (j == |t| ==> EndOk(u) && s'.cursor == |t|)
    && (j < |t| ==>
      && s'.cursor == j && s'.phase == Digit && s'.c == t[j] && s'.started
      && s'.commas == CommasAfter(CommaCount(u.gap), u.word)
      && s'.group == GroupOf(s.group, Letters(u.word)) + 1)
  }

  lemma {:induction false} GapFound(t: string, s: State, i: nat)
    requires Going(t, s) && s.phase == Word && s.started && s.commas == 0 && SpaceFun(t, s).Some?
    requires i == SpaceFun(t, s).value.0 - 1 && IsAlpha(t[i])
    ensures s.cursor <= i && Separator(t[s.cursor..i]) && CommaCount(t[s.cursor..i]) <= 1
    ensures SpaceFun(t, s).value.1 == CommaCount(t[s.cursor..i])
  {
    hide CommaCount, Separator;
    SkipChars(t, s.cursor, s.c, s.commas);
    SpaceFunIs(t, s, i);
  }

  lemma {:induction false} WordFound(t: string, s: State, num: string) returns (u: Unit)
    requires Going(t, s) && s.phase == Word && s.started && s.commas == 0 && IsNumeral(num)
    requires WordFun(t, s).Some? && Inv(t, WordFun(t, s).value) && Run(t, WordFun(t, s).value).Some?
    ensures u.num == num && u.sep == "" && WordDone(t, s, WordFun(t, s).value, u)
  {
    hide Colons, GroupOf, Letters, CommasAfter, CommaCount, WordEnd, Run, Weight, IsNumeral, Separator, SpaceFun, Inv;
    var i := SpaceFun(t, s).value.0 - 1;
    GapFound(t, s, i);
    var j := WordEnd(t, i + 1);
    WrittenWord(t, i);
    u := Unit(num, t[s.cursor..i], t[i..j], "");
    if j == |t| { LastLetter(t, s, j); }
  }

  lemma {:induction false} WrittenWord(t: string, i: nat)
    requires i < |t| && IsAlpha(t[i])
    ensures WordOk(t[i..WordEnd(t, i + 1)])
  {
    WordEndChars(t, i + 1);
  }

  /** A text that ends with a comma in its last word is refused. */
  lemma {:induction false} LastLetter(t: string, s: State, j: nat)
    requires Going(t, s) && s.phase == Word && s.started && WordFun(t, s).Some?
    requires Inv(t, WordFun(t, s).value) && Run(t, WordFun(t, s).value).Some?
    requires SpaceFun(t, s).Some? && j == WordEnd(t, SpaceFun(t, s).value.0) == |t|
    ensures IsAlpha(t[|t| - 1])
  {
    if !IsAlpha(t[|t| - 1]) {
      WordEndChars(t, SpaceFun(t, s).value.0);
      TimeMeaning.TrailingCommaFails(t, WordFun(t, s).value);
    }
  }

  lemma {:induction false} NumberEnds(t: string, s: State)
    requires Going(t, s) && s.phase == Word && s.started && Run(t, s).Some?
    ensures !(s.cursor == |t| - 1 && IsNumChar(t[|t| - 1]))
  {
    if s.cursor == |t| - 1 && IsNumChar(t[|t| - 1]) { TimeMeaning.BareNumberFails(t, s); }
  }

  // ---- the clock ----

  /** What one time-field turn has read: a middle field, or the last one and what stands behind it. */
  lemma {:induction false} FieldFound(t: string, s: State)
    requires Inv(t, s) && s.cursor < |t| && s.phase == CompleteTime && CompleteTimeFun(t, s).Some?
    ensures var s' := CompleteTimeFun(t, s).value;
      var f := s'.recent;
      var j := s.cursor + 1 + |f|;
      && j <= |t| && t[s.cursor] == ':' && t[s.cursor + 1..j] == f && s'.phase == CompleteTime
      && (if s'.cursor < |t| then s'.cursor == j && |f| == 2 && AllDigits(f) else FieldsOk([f], t[j..]))
  {
    hide Colons, NumEnd;
    var i := s.cursor + 1;
    var j := NumEnd(t, i + 1, 0);
    NumeralFound(t, i);
    var at := Back(t, j);
    assert j == |t| ==> IsNumChar(t[at]);
    if !(j == |t| && IsDigit(t[|t| - 1])) && t[at] != ':' {
      OnlySpaceChars(t, at);
    }
  }

  lemma {:induction false} FieldsFound(t: string, s: State) returns (fields: seq<string>, trail: string)
    requires Inv(t, s) && s.cursor < |t| && s.phase == CompleteTime && Run(t, s).Some?
    ensures FieldsOk(fields, trail) && t[s.cursor..] == FieldsText(fields, trail)
    decreases |t| - s.cursor
  {
    hide Colons, NumEnd, Inv;
    CompleteTimeProgress(t, s);
    FieldFound(t, s);
    var s' := CompleteTimeFun(t, s).value;
    var f := s'.recent;
    var j := s.cursor + 1 + |f|;
    assert t[s.cursor..] == ":" + f + t[j..];
    if s'.cursor == |t| {
      fields, trail := [f], t[j..];
      assert FieldsText(fields, trail) == ":" + f + FieldsText([], trail);
    } else {
      fields, trail := FieldsFound(t, s');
      fields := [f] + fields;
    }
  }

  /** Fields behind their first number are a clock; there are as many as colons. */
  lemma {:induction false} ClockFound(t: string, i: nat, num: string, fields: seq<string>, trail: string)
    requires At(t, i, num) && IsNumeral(num) && '.' !in num
    requires FieldsOk(fields, trail) && t[i + |num|..] == FieldsText(fields, trail) && Colons(t, i + |num|) <= 3
    ensures ClockOk([num] + fields, trail) && t[i..] == ClockText([num] + fields, trail)
  {
    var j := i + |num|;
    FieldsColons(fields, trail);
    ColonsShift(t[..j], t[j..], 0);
    assert t[..j] + t[j..] == t;
    assert ([num] + fields)[1..] == fields;
    assert t[i..] == t[i..j] + t[j..];
  }

  // ---- the whole text ----

  /** The turn that reads the number of a unit. */
  lemma {:induction false} NumberFound(t: string, s: State, i: nat) returns (s1: State)
    requires Going(t, s) && s.phase == Digit && DigitFun(t, s).Some? && Run(t, s).Some? && Before(t, s, i)
    requires DigitFun(t, s).value.phase == Word
    ensures Going(t, s1) && Run(t, s1).Some? && s.cursor <= s1.cursor
    ensures s1.phase == Word && s1.started && s1.commas == 0
    ensures s1.group == s.group && At(t, i, s1.recent) && IsNumeral(s1.recent) && s1.cursor == i + |s1.recent|
  {
    hide Colons, Before, DigitFun, IsNumeral;
    DigitProgress(t, s);
    s1 := DigitFun(t, s).value;
    var i' := DigitFound(t, s);
    SameNumber(t, s, i, i');
    ColonsFrom(t, s.cursor, s1.cursor);
    NumberEnds(t, s1);
  }

  /** A unit is found by the two turns that read it; `k` is where it ends. */
  lemma {:induction false} UnitFound(t: string, s: State, i: nat) returns (u: Unit, k: nat, s2: State)
    requires Going(t, s) && s.phase == Digit && DigitFun(t, s).Some? && Run(t, s).Some? && Before(t, s, i)
    requires DigitFun(t, s).value.phase == Word
    ensures Inv(t, s2) && Run(t, s2).Some? && s2.cursor > s.cursor
    ensures s.group <= |SYMBOLS| && UnitOk(u, s.group) && u.sep == ""
    ensures i <= k <= |t| && t[i..k] == u.num + u.gap + u.word
    ensures k == |t| ==> EndOk(u)
    ensures k < |t| ==>
      && Going(t, s2) && s2.phase == Digit && s2.started && s2.cursor == k
      && s2.group == GroupOf(s.group, Letters(u.word)) + 1
      && s2.commas == CommasAfter(CommaCount(u.gap), u.word)
  {
    hide Colons, Before, DigitFun, WordFun, Separator, IsNumeral, WordOk, CommaCount, CommasAfter, GroupOf, Letters,
      EndOk, UnitOk;
    var s1 := NumberFound(t, s, i);
    WordProgress(t, s1);
    u := WordFound(t, s1, s1.recent);
    s2 := WordFun(t, s1).value;
    ColonsFrom(t, s1.cursor, s2.cursor);
    k := s1.cursor + |u.gap| + |u.word|;
    Joined(t, i, u);
  }

  lemma {:induction false} SameNumber(t: string, s: State, i: nat, j: nat)
    requires Before(t, s, i) && Before(t, s, j)
    ensures i == j
  {
    if s.started {
      BeforeSkips(t, s, i);
      BeforeSkips(t, s, j);
    }
  }

  lemma {:induction false} Joined(t: string, i: nat, u: Unit)
    requires At(t, i, u.num) && At(t, i + |u.num|, u.gap) && At(t, i + |u.num| + |u.gap|, u.word)
    ensures t[i..i + |u.num| + |u.gap| + |u.word|] == u.num + u.gap + u.word
  {
  }

  lemma {:induction false} ClockRead(t: string, s: State, i: nat) returns (clock: seq<string>, trail: string)
    requires Going(t, s) && s.phase == Digit && DigitFun(t, s).Some? && Run(t, s).Some? && Before(t, s, i)
    requires DigitFun(t, s).value.phase == CompleteTime
    ensures clock != [] && ClockOk(clock, trail) && t[i..] == Phrase([], ClockText(clock, trail))
    ensures s.group <= |SYMBOLS| && UnitsOk([], s.group, true)
  {
    hide Colons, Before, DigitFun, IsNumeral, FieldsOk, ClockOk, FieldsText, ClockText;
    DigitProgress(t, s);
    var s1 := DigitFun(t, s).value;
    var i' := DigitFound(t, s);
    SameNumber(t, s, i, i');
    ColonsFrom(t, s.cursor, s1.cursor);
    clock, trail := FieldsFound(t, s1);
    ClockFound(t, i, s1.recent, clock, trail);
    clock := [s1.recent] + clock;
  }

  /** The phrase that a run which succeeds has read. */
  lemma {:induction false} PhraseFound(t: string, s: State)
    returns (i: nat, units: seq<Unit>, clock: seq<string>, trail: string)
    requires Going(t, s) && s.phase == Digit && Run(t, s).Some?
    ensures Before(t, s, i) && t[i..] == Phrase(units, ClockText(clock, trail)) && (units != [] || clock != [])
    ensures s.group <= |SYMBOLS| && UnitsOk(units, s.group, clock != []) && ClockOk(clock, trail)
    decreases |t| - s.cursor
  {
    hide Colons, Before, DigitFun, WordFun, Separator, IsNumeral, WordOk, CommaCount, CommasAfter, GroupOf, Letters,
      FieldsOk, UnitOk, UnitsOk, EndOk, Phrase;
    i := DigitFound(t, s);
    DigitProgress(t, s);
    var s1 := DigitFun(t, s).value;
    if s1.phase == CompleteTime {
      clock, trail := ClockRead(t, s, i);
      units := [];
    } else {
      var u, k, s2 := UnitFound(t, s, i);
      if k == |t| {
        units, clock, trail := [u], [], "";
        LastUnit(t, i, u, s.group);
      } else {
        var i2;
        i2, units, clock, trail := PhraseFound(t, s2);
        NextUnit(t, s2, i, k, i2, u, units, s.group, ClockText(clock, trail), clock != []);
        units := [u.(sep := t[k..i2])] + units;
      }
    }
  }

  lemma {:induction false} LastUnit(t: string, i: nat, u: Unit, from: nat)
    requires from <= |SYMBOLS| && UnitOk(u, from) && EndOk(u) && i <= |t| && t[i..|t|] == u.num + u.gap + u.word
    ensures UnitsOk([u], from, false) && t[i..] == Phrase([u], "")
  {
    assert [u][1..] == [];
    assert Phrase([], "") == "";
  }

  /** A unit goes in front of the phrase behind it, with the separator between them. */
  lemma {:induction false} NextUnit(t: string, s2: State, i: nat, k: nat, i2: nat, u: Unit, units: seq<Unit>, from: nat,
      tail: string, clock: bool)
    requires from <= |SYMBOLS| && UnitOk(u, from) && i <= k <= |t| && t[i..k] == u.num + u.gap + u.word
    requires Before(t, s2, i2) && s2.started && s2.cursor == k && s2.commas == CommasAfter(CommaCount(u.gap), u.word)
    requires s2.group == GroupOf(from, Letters(u.word)) + 1
    requires UnitsOk(units, s2.group, clock) && t[i2..] == Phrase(units, tail) && (units != [] || clock)
    ensures k <= i2 <= |t|
    ensures var all := [u.(sep := t[k..i2])] + units;
      UnitsOk(all, from, clock) && t[i..] == Phrase(all, tail)
  {
    hide GroupOf, Letters, CommasAfter, CommaCount, Separator, Inv;
    var first := u.(sep := t[k..i2]);
    assert ([first] + units)[1..] == units;
    assert t[i..] == t[i..k] + t[k..i2] + t[i2..];
  }

  /** Every accepted text is a text of the grammar. */
  lemma {:induction false} AcceptedSpelled(t: string) returns (p: Spelling)
    requires Parse(t).Some?
    ensures p.Ok() && p.Text() == t
  {
    StartInv(t);
    var i, units, clock, trail := PhraseFound(t, Start(t));
    p := Spelling(units, clock, trail);
    assert t[0..] == t;
  }

  /** The scanner accepts exactly the texts of the grammar that do not clash, and gives the sum of their parts. */
  lemma {:induction false} AcceptedExactly(t: string, v: real)
    ensures Parse(t) == Some(v)
      <==> exists p: Spelling :: p.Ok() && p.Text() == t && !p.Clashes() && v == Total(p.Addends())
  {
    if Parse(t) == Some(v) {
      var p := AcceptedSpelled(t);
      PhraseAccepted(p);
    }
    forall p: Spelling | p.Ok() && p.Text() == t && !p.Clashes()
      ensures Parse(t) == Some(Total(p.Addends()))
    {
      PhraseAccepted(p);
    }
  }
}
