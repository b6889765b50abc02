/**
 When the type found for a column depends on the order of its rows, and when it does not.
 */
module TypifyOrder {
  import opened Text
  import opened Numeral
  import NumeralMeaning
  import TimeScan
  import opened Comparators
  import opened Typify
  import opened Contents

  // ---- what a pass accepts, whatever the order ----

  /** The cell alone lets the pass for `k` accept it: a word may have been made a number, and a date is not
      found when there is no format for it. */
  predicate MayPass(k: Kind, c: Content, s: Settings) {
    Nullish(c, s) || k == Plain || (!s.noInference &&
      match k
      case Boolean => IsFlag(c, s)
      case Timedelta => c.timedelta
      case Datetime => c.datetime
      case Day => c.date && !s.noDateFormat
      case Number => IsNumeric(Detected(c, s).dtype) || IsWord(c, s)
      case Plain => true)
  }

  ghost predicate AllMayPass(k: Kind, contents: seq<Content>, s: Settings) {
    forall c :: c in contents ==> MayPass(k, c, s)
  }

  /** A boolean word that the passes look into. */
  predicate ActiveWord(c: Content, s: Settings) { Active(c, s) && IsWord(c, s) }

  /** A number, other than a flag, that the passes look into. */
  predicate ActiveNumber(c: Content, s: Settings) {
    Active(c, s) && IsNumeric(Detected(c, s).dtype) && !IsFlag(c, s)
  }

  /** The column holds boolean words and numbers that are no flags and nothing else, and the cells are neither
      all timedeltas nor all datetimes nor, given a format for them, all dates. */
  ghost predicate OrderCounts(contents: seq<Content>, s: Settings) {
    && (exists c :: c in contents && ActiveWord(c, s)) && (exists c :: c in contents && ActiveNumber(c, s))
    && AllMayPass(Number, contents, s)
    && !AllMayPass(Timedelta, contents, s) && !AllMayPass(Datetime, contents, s) && !AllMayPass(Day, contents, s)
  }

  lemma {:induction false} MayPassNecessary(k: Kind, contents: seq<Content>, s: Settings)
    requires AllPass(k, contents, s)
    ensures AllMayPass(k, contents, s)
  {
    hide Nullish, Detected, IsFlag, IsBoolWord, Reached, Accepts;
    if k == Day && s.noDateFormat {
      NoDates(contents, s);
    } else {
      forall c | c in contents
        ensures MayPass(k, c, s)
      {
        var i :| 0 <= i < |contents| && contents[i] == c;
        assert Passes(k, contents, i, s);
      }
    }
  }

  /** The first cell that is looked into is reached by the datetime pass, and then it is not tried as a date. */
  lemma {:induction false} NoDates(contents: seq<Content>, s: Settings)
    requires s.noDateFormat && AllPass(Day, contents, s)
    ensures AllMayPass(Day, contents, s)
  {
    hide Nullish;
    if i :| 0 <= i < |contents| && !Nullish(contents[i], s) {
      var f := FirstActive(contents, i, s);
      assert Reached(Datetime, contents, f, s);
      assert Passes(Day, contents, f, s);
    }
  }

  lemma {:induction false} FirstActive(contents: seq<Content>, i: nat, s: Settings) returns (f: nat)
    requires i < |contents| && !Nullish(contents[i], s)
    ensures f <= i && !Nullish(contents[f], s) && forall j :: 0 <= j < f ==> Nullish(contents[j], s)
  {
    hide Nullish;
    f := 0;
    while Nullish(contents[f], s)
      invariant f <= i && forall j :: 0 <= j < f ==> Nullish(contents[j], s)
      decreases i - f
    {
      f := f + 1;
    }
  }

  /** For every pass but that for numbers, the cells alone decide. */
  lemma {:induction false} MayPassSufficient(k: Kind, contents: seq<Content>, s: Settings)
    requires AllMayPass(k, contents, s) && k != Number
    ensures AllPass(k, contents, s)
  {
    hide Nullish, Detected, IsFlag, Reached;
    forall i | 0 <= i < |contents|
      ensures Passes(k, contents, i, s)
    {
      assert MayPass(k, contents[i], s);
    }
  }

  /** They decide for numbers too unless both words and numbers that are no flags are among them. */
  lemma {:induction false} NumbersSufficient(contents: seq<Content>, s: Settings)
    requires AllMayPass(Number, contents, s)
    requires (forall c :: c in contents ==> !ActiveWord(c, s)) || (forall c :: c in contents ==> !ActiveNumber(c, s))
    ensures AllPass(Number, contents, s)
  {
    hide Nullish, Detected, IsBoolWord, IsZeroOrOne;
    forall i | 0 <= i < |contents|
      ensures Passes(Number, contents, i, s)
    {
      var c := contents[i];
      assert MayPass(Number, c, s);
      if ActiveWord(c, s) {
        forall j | 0 <= j < i
          ensures Accepts(Boolean, contents[j], s)
        {
          assert MayPass(Number, contents[j], s) && !ActiveNumber(contents[j], s);
        }
      }
    }
  }

  // ---- the exact condition ----

  /** Any two orders of the cells give the column the same type. */
  ghost predicate OrderFree(contents: seq<Content>, s: Settings) {
    forall x, y, j, k ::
      multiset(x) == multiset(contents) && multiset(y) == multiset(contents) && TypeIs(j, x, s) && TypeIs(k, y, s)
        ==> j == k
  }

  lemma {:induction false} SameMembers(x: seq<Content>, y: seq<Content>)
    requires multiset(x) == multiset(y)
    ensures forall c :: c in x <==> c in y
  {
    forall c
      ensures c in x <==> c in y
    {
      assert c in multiset(x) <==> c in multiset(y);
    }
  }

  lemma {:induction false} SameChances(k: Kind, x: seq<Content>, y: seq<Content>, s: Settings)
    requires multiset(x) == multiset(y)
    ensures AllMayPass(k, x, s) <==> AllMayPass(k, y, s)
  {
    hide MayPass;
    SameMembers(x, y);
  }

  /** When the order does not count, a pass that decides accepts one order as it accepts another. */
  lemma {:induction false} SamePasses(x: seq<Content>, y: seq<Content>, j: Kind, k: Kind, s: Settings)
    requires multiset(x) == multiset(y) && !OrderCounts(x, s) && TypeIs(j, x, s) && TypeIs(k, y, s)
    ensures Order(k) <= Order(j)
  {
    hide AllPass, AllMayPass, ActiveWord, ActiveNumber;
    MayPassNecessary(j, x, s);
    SameChances(j, x, y, s);
    if j != Number {
      MayPassSufficient(j, y, s);
    } else if AllMayPass(Timedelta, x, s) || AllMayPass(Datetime, x, s) || AllMayPass(Day, x, s) {
      var e := if AllMayPass(Timedelta, x, s) then Timedelta else if AllMayPass(Datetime, x, s) then Datetime else Day;
      SameChances(e, x, y, s);
      MayPassSufficient(e, y, s);
    } else {
      SameMembers(x, y);
      NumbersSufficient(y, s);
    }
  }

  lemma {:induction false} CountsAlike(x: seq<Content>, y: seq<Content>, s: Settings)
    requires multiset(x) == multiset(y) && OrderCounts(x, s)
    ensures OrderCounts(y, s)
  {
    hide MayPass, ActiveWord, ActiveNumber;
    SameMembers(x, y);
    SameChances(Number, x, y, s);
    SameChances(Timedelta, x, y, s);
    SameChances(Datetime, x, y, s);
    SameChances(Day, x, y, s);
  }

  lemma {:induction false} OrderIsFree(contents: seq<Content>, s: Settings)
    requires !OrderCounts(contents, s)
    ensures OrderFree(contents, s)
  {
    hide TypeIs, OrderCounts;
    forall x: seq<Content>, y: seq<Content>, j, k |
      multiset(x) == multiset(contents) && multiset(y) == multiset(contents) && TypeIs(j, x, s) && TypeIs(k, y, s)
      ensures j == k
    {
      if OrderCounts(x, s) { CountsAlike(x, contents, s); }
      if OrderCounts(y, s) { CountsAlike(y, contents, s); }
      SamePasses(x, y, j, k, s);
      SamePasses(y, x, k, j, s);
    }
  }

  // ---- two orders that differ ----

  /** The boolean words first. */
  function WordsForward(contents: seq<Content>, s: Settings): seq<Content> {
    if contents == [] then []
    else if ActiveWord(contents[0], s) then [contents[0]] + WordsForward(contents[1..], s)
    else WordsForward(contents[1..], s) + [contents[0]]
  }

  /** A boolean word, and what stands before it, lies in the front of `n` cells. */
  ghost predicate WordsInFront(x: seq<Content>, n: nat, s: Settings) {
    && n <= |x| && (forall i :: 0 <= i < n ==> ActiveWord(x[i], s))
    && (forall i :: n <= i < |x| ==> !ActiveWord(x[i], s))
  }

  lemma {:induction false} WordsForwardContents(contents: seq<Content>, s: Settings)
    ensures multiset(WordsForward(contents, s)) == multiset(contents)
  {
    hide ActiveWord;
    if contents != [] {
      var c, x, rest := contents[0], WordsForward(contents[1..], s), contents[1..];
      WordsForwardContents(rest, s);
      HeadOf(contents);
      if ActiveWord(c, s) { Head(c, x); } else { Last(x, c); }
    }
  }

  lemma {:induction false} WordsForwardFront(contents: seq<Content>, s: Settings) returns (n: nat)
    ensures WordsInFront(WordsForward(contents, s), n, s)
  {
    hide ActiveWord;
    n := 0;
    if contents != [] {
      n := WordsForwardFront(contents[1..], s);
      if ActiveWord(contents[0], s) { n := n + 1; }
    }
  }

  /** With the words in front, all are numbers by the time they are tried as numbers. */
  lemma {:induction false} WordsFirst(x: seq<Content>, n: nat, s: Settings)
    requires WordsInFront(x, n, s) && AllMayPass(Number, x, s)
    ensures AllPass(Number, x, s)
  {
    hide Nullish, Detected, IsBoolWord, IsZeroOrOne;
    forall i | 0 <= i < |x|
      ensures Passes(Number, x, i, s)
    {
      assert MayPass(Number, x[i], s);
      if i < n {
        assert forall j :: 0 <= j < i ==> ActiveWord(x[j], s) && Accepts(Boolean, x[j], s);
      }
    }
  }

  /** With a number in front that is no flag, no word is ever looked at as a boolean. */
  lemma {:induction false} NumberInFront(y: seq<Content>, i: nat, s: Settings)
    requires 0 < i < |y| && ActiveNumber(y[0], s) && ActiveWord(y[i], s)
    ensures !AllPass(Number, y, s)
  {
    hide Nullish, Detected, IsBoolWord, IsZeroOrOne;
    assert !Accepts(Boolean, y[0], s);
    assert !Passes(Number, y, i, s);
  }

  lemma {:induction false} WordNotNumber(c: Content, d: Content, s: Settings)
    requires ActiveWord(c, s) && ActiveNumber(d, s)
    ensures c != d && !MayPass(Boolean, d, s)
  {
    hide Nullish, Detected, IsBoolWord, IsZeroOrOne;
  }

  /** The passes before that for numbers accept no order, and the last one accepts every order. */
  lemma {:induction false} EarlierFail(x: seq<Content>, s: Settings)
    requires OrderCounts(x, s)
    ensures forall k :: Order(k) < Order(Number) ==> !AllPass(k, x, s)
    ensures AllPass(Plain, x, s)
  {
    hide MayPass, AllPass, Nullish, ActiveWord, ActiveNumber;
    var c :| c in x && ActiveWord(c, s);
    var d :| d in x && ActiveNumber(d, s);
    WordNotNumber(c, d, s);
    forall k | Order(k) < Order(Number)
      ensures !AllPass(k, x, s)
    {
      if AllPass(k, x, s) { MayPassNecessary(k, x, s); }
    }
    AllPlain(x, s);
  }

  lemma {:induction false} TypesDiffer(contents: seq<Content>, s: Settings) returns (x: seq<Content>, y: seq<Content>)
    requires OrderCounts(contents, s)
    ensures multiset(x) == multiset(contents) && multiset(y) == multiset(contents)
    ensures TypeIs(Number, x, s) && TypeIs(Plain, y, s)
  {
    hide MayPass, AllPass, ActiveWord, ActiveNumber, WordsForward;
    x := WordsForward(contents, s);
    WordsForwardContents(contents, s);
    var n := WordsForwardFront(contents, s);
    CountsAlike(contents, x, s);
    EarlierFail(x, s);
    hide WordsInFront;
    WordsFirst(x, n, s);
    var i;
    y, i := NumberToFront(contents, s);
    CountsAlike(contents, y, s);
    EarlierFail(y, s);
    NumberInFront(y, i, s);
    BeforePlain();
  }

  lemma {:induction false} BeforePlain()
    ensures forall k :: Order(k) < Order(Plain) ==> k == Number || Order(k) < Order(Number)
  {
  }

  lemma {:induction false} NumberToFront(contents: seq<Content>, s: Settings) returns (y: seq<Content>, i: nat)
    requires OrderCounts(contents, s)
    ensures multiset(y) == multiset(contents) && 0 < i < |y| && ActiveNumber(y[0], s) && ActiveWord(y[i], s)
  {
    hide AllMayPass, ActiveWord, ActiveNumber;
    var c :| c in contents && ActiveWord(c, s);
    var d :| d in contents && ActiveNumber(d, s);
    y := ToFront(contents, d);
    SameMembers(y, contents);
    WordNotNumber(c, d, s);
    i :| 0 <= i < |y| && y[i] == c;
  }

  lemma {:induction false} ToFront(contents: seq<Content>, d: Content) returns (y: seq<Content>)
    requires d in contents
    ensures y != [] && y[0] == d && multiset(y) == multiset(contents)
  {
    var p :| 0 <= p < |contents| && contents[p] == d;
    var a, b := contents[..p], contents[p + 1..];
    y := [d] + (a + b);
    MovedToFront(a, d, b);
    assert contents == a + ([d] + b);
  }

  lemma {:induction false} MovedToFront(a: seq<Content>, d: Content, b: seq<Content>)
    ensures multiset([d] + (a + b)) == multiset(a + ([d] + b))
  {
    Head(d, a + b);
    Head(d, b);
    Joined(a, b);
    Joined(a, [d] + b);
  }

  /** The type of a column does not depend on the order of its rows, unless they are exactly such a mixture of
      boolean words and other numbers. */
  lemma {:induction false} OrderFreeExactly(contents: seq<Content>, s: Settings)
    ensures OrderFree(contents, s) <==> !OrderCounts(contents, s)
  {
    hide OrderCounts;
    if OrderCounts(contents, s) {
      var x, y := TypesDiffer(contents, s);
    } else {
      OrderIsFree(contents, s);
    }
  }

  /** Every column has a type. */
  lemma {:induction false} TypeExists(contents: seq<Content>, s: Settings) returns (k: Kind)
    ensures TypeIs(k, contents, s)
  {
    AllPlain(contents, s);
    hide AllPass;
    k := Boolean;
    while !AllPass(k, contents, s)
      invariant forall j :: Order(j) < Order(k) ==> !AllPass(j, contents, s)
      decreases Order(Plain) - Order(k)
    {
      k := NextPass(k);
    }
  }

  lemma {:induction false} AllPlain(contents: seq<Content>, s: Settings)
    ensures AllPass(Plain, contents, s)
  {
  }

  // ---- an input ----

  const NO_OPTIONS: Settings := Settings(false, false, {}, false, false, false, true, false)

  const WORD_T: Content := Content("T", "T", false, false, false)
  const NUMBER_5: Content := Content("5", "5", false, false, false)

  lemma {:induction false} ReadT()
    ensures Read("T") == STRING
  {
    var t := "T";
    assert SkipChar(t, ' ', 0) == 0 && SkipChar(t, '+', 0) == 0 && TrimEnd(t) == 1 && t[0..1] == t;
    NumeralMeaning.ExponentStartIs(t, 0, 1);
    assert t[..1] == t;
    assert !IsDigit(t[0]) && t[0] != '-' && t[0] != '.';
  }

  lemma {:induction false} Read5()
    ensures Read("5") == Reading(CsvInt8, Some(5.0))
  {
    var t := "5";
    NumeralMeaning.IntegerExact(false, t, CsvInt8);
    Value5();
    assert NumeralMeaning.SignedText(false, t) == t;
    hide Read, NatValue, NumeralMeaning.SignedText, IntegralType;
    SmallType(Read(t).dtype);
  }

  lemma {:induction false} SmallType(t: DataType)
    requires NumeralMeaning.Holds(t, 5)
    requires NumeralMeaning.Order(CsvInt8) < NumeralMeaning.Order(t) ==> !NumeralMeaning.Holds(CsvInt8, 5)
    ensures t == CsvInt8
  {
  }

  lemma {:induction false} Value5()
    ensures NatValue("5") == 5
  {
    NatValueNext("5", 0, 0);
    NatValueNone("5", 0);
    assert "5"[0..1] == "5";
  }

  /** The words "T" and "5", neither of them a timedelta: "T" above "5" is a number column, below it text. */
  lemma {:induction false} OrderMatters()
    ensures TimeScan.Parse(WORD_T.text) == None && TimeScan.Parse(NUMBER_5.text) == None
    ensures OrderCounts([WORD_T, NUMBER_5], NO_OPTIONS)
    ensures TypeIs(Number, [WORD_T, NUMBER_5], NO_OPTIONS) && TypeIs(Plain, [NUMBER_5, WORD_T], NO_OPTIONS)
  {
    var s, c, d := NO_OPTIONS, WORD_T, NUMBER_5;
    var x, y := [c, d], [d, c];
    Cells();
    hide Read, Nullish, Detected, IsFlag, IsBoolWord;
    assert x[0] == c && x[1] == d && y[0] == d && y[1] == c;
    assert !MayPass(Timedelta, c, s) && !MayPass(Datetime, c, s) && !MayPass(Day, c, s);
    assert MayPass(Number, c, s) && MayPass(Number, d, s);
    assert ActiveWord(x[0], s) && ActiveNumber(x[1], s);
    assert multiset(x) == multiset{c, d} == multiset(y);
    CountsAlike(x, y, s);
    hide OrderCounts, MayPass, AllPass;
    EarlierFail(x, s);
    EarlierFail(y, s);
    WordNotNumber(c, d, s);
    WordsFirst(x, 1, s);
    NumberInFront(y, 1, s);
    BeforePlain();
  }

  lemma {:induction false} Cells()
    ensures ActiveWord(WORD_T, NO_OPTIONS) && ActiveNumber(NUMBER_5, NO_OPTIONS)
  {
    ReadT();
    Read5();
    hide Read;
  }
}
