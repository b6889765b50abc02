/**
 The timedelta scanner in the form the program runs it: a loop over three phases that share the
 local variables of `parse` (here handed in and out), each built from small loops over the text.
 `TimeScan` says what every piece computes.
 */
module TimeParser {
  import opened Text
  import opened TimeScan

  /** `space_fun`: over spaces and commas, counting the commas, to the next other character. */
  method SpaceFun(t: string, start: State) returns (ok: bool, cursor: nat, commas: nat)
    requires start.cursor <= |t|
    ensures ok == TimeScan.SpaceFun(t, start).Some?
    ensures ok ==> (cursor, commas) == TimeScan.SpaceFun(t, start).value
  {
    var c := start.c;
    cursor, commas := start.cursor, start.commas;
    if commas > 1 {
      return false, cursor, commas;
    }
    while true
      invariant cursor <= |t| && commas <= 1
      invariant Skip(t, cursor, c, commas) == TimeScan.SpaceFun(t, start)
      decreases |t| - cursor
    {
      if cursor == |t| {
        return false, cursor, commas;
      }
      if c == ',' {
        commas := commas + 1;
        if commas > 1 {
          return false, cursor, commas;
        }
      }
      c := t[cursor];
      cursor := cursor + 1;
      if !IsSpace(c) && c != ',' {
        return true, cursor, commas;
      }
    }
  }

  /** `compose_num`: reads on from the digit at `i`; the character that stops it is read too. */
  method ComposeNum(t: string, i: nat) returns (s: string, cursor: nat)
    requires i < |t|
    ensures var j := NumEnd(t, i + 1, 0); s == t[i..j] && cursor == (if j < |t| then j + 1 else |t|)
  {
    var c := t[i];
    cursor := i + 1;
    var dots := 0;
    s := [c];
    while cursor != |t|
      invariant i < cursor <= |t| && dots <= 1
      invariant s == t[i..cursor] && NumEnd(t, cursor, dots) == NumEnd(t, i + 1, 0)
      decreases |t| - cursor
    {
      c := t[cursor];
      cursor := cursor + 1;
      if c == '.' { dots := dots + 1; }
      if !(dots < 2 && (IsDigit(c) || c == '.')) {
        return;
      }
      s := s + [c];
    }
  }

  /** `inc_sec` */
  method IncSec(addends: seq<Addend>, num: string, weight: nat, total: real) returns (total': real)
    requires total == Total(addends)
    ensures total' == Total(addends + [Addend(num, weight)])
  {
    total' := total + NumeralValue(num) * weight as real;
    assert (addends + [Addend(num, weight)])[..|addends|] == addends;
  }

  method DigitFun(t: string, s: State, total: real) returns (n: Option<State>, total': real)
    requires Inv(t, s) && s.cursor < |t| && s.phase == Digit && total == Total(s.addends)
    ensures n == TimeScan.DigitFun(t, s)
    ensures n.Some? ==> total' == Total(n.value.addends)
  {
    hide Colons, NumEnd, Skip, Total;
    var ok, cursor, commas := true, s.cursor + 1, s.commas;
    if s.started {
      ok, cursor, commas := SpaceFun(t, s);
    }
    if !ok || !IsDigit(t[cursor - 1]) {
      return None, total;
    }
    var num, stopped := ComposeNum(t, cursor - 1);
    cursor := stopped - 1;
    var c := t[cursor];
    if c == ':' {
      if '.' in num {
        return None, total;
      }
      ColonsFrom(t, s.cursor, cursor);
      ColonsFrom(t, cursor, |t|);
      total' := IncSec(s.addends, num, s.secs[0], total);
      n := Some(s.(cursor := cursor, c := c, started := true, commas := commas, secs := s.secs[1..],
                   phase := CompleteTime, recent := num, addends := s.addends + [Addend(num, s.secs[0])]));
      return;
    }
    return Some(s.(cursor := cursor, c := c, started := true, commas := 0, phase := Word, recent := num)), total;
  }

  /** The word at the cursor without its commas; the character that stops it is read too. */
  method ComposeWord(t: string, i: nat, start: nat) returns (word: string, commas: nat, cursor: nat)
    requires i < |t| && IsAlpha(t[i]) && start <= 1
    ensures var j := WordEnd(t, i + 1);
      && word == Letters(t[i..j]) && commas == CommasAfter(start, t[i..j])
      && cursor == (if j < |t| then j + 1 else |t|)
      && (j < |t| ==> !IsAlpha(t[j]))
  {
    word, commas, cursor := [t[i]], start, i + 1;
    ReadOn(t, i, i, start);
    assert t[i..i] == "";
    WordEndStops(t, i + 1);
    while cursor != |t|
      invariant i < cursor <= |t|
      invariant WordEnd(t, cursor) == WordEnd(t, i + 1) && word == Letters(t[i..cursor])
      invariant commas == CommasAfter(start, t[i..cursor])
      decreases |t| - cursor
    {
      ReadOn(t, i, cursor, start);
      var c := t[cursor];
      cursor := cursor + 1;
      if !IsAlpha(c) && c != ',' {
        return;
      }
      if c != ',' {
        word := word + [c];
      } else {
        commas := if commas == 255 then 0 else commas + 1;
      }
    }
  }

  /** Pops groups of `sym_deq` until one holds the word. */
  method FindUnit(word: string, from: nat) returns (found: bool, group: nat)
    requires from <= |SYMBOLS|
    ensures found == (GroupOf(from, word) < |SYMBOLS|)
    ensures found ==> group == GroupOf(from, word) + 1
  {
    found, group := false, from;
    var symDeq := SYMBOLS[from..];
    while symDeq != [] && !found
      invariant from <= group <= |SYMBOLS| && symDeq == SYMBOLS[group..]
      invariant !found ==> GroupOf(group, word) == GroupOf(from, word)
      invariant found ==> group == GroupOf(from, word) + 1
      decreases |symDeq|
    {
      found := word in symDeq[0];
      symDeq := symDeq[1..];
      group := group + 1;
    }
  }

  method WordFun(t: string, s: State, total: real) returns (n: Option<State>, total': real)
    requires s.cursor < |t| && s.commas < 256 && s.group <= |SYMBOLS| && total == Total(s.addends)
    ensures n == TimeScan.WordFun(t, s)
    ensures n.Some? ==> total' == Total(n.value.addends)
  {
    hide Skip, Total, WordEnd, GroupOf, Weight;
    var ok, cursor, commas := SpaceFun(t, s);
    if !ok || !IsAlpha(t[cursor - 1]) {
      return None, total;
    }
    var word;
    ghost var end := WordEnd(t, cursor);
    word, commas, cursor := ComposeWord(t, cursor - 1, commas);
    assert ReadWord(t, s) == Some(WordRead(word, commas, end));
    var found, group := FindUnit(word, s.group);
    if !found {
      return None, total;
    }
    total' := IncSec(s.addends, s.recent, Weight(word), total);
    var last := cursor == |t| && IsAlpha(t[cursor - 1]);
    if !last { cursor := cursor - 1; }
    n := Some(s.(cursor := cursor, c := t[if last then |t| - 1 else cursor], commas := commas, group := group,
                 phase := if last then s.phase else Digit, addends := s.addends + [Addend(s.recent, Weight(word))]));
  }

  method SkipSpace(t: string, i: nat) returns (ok: bool)
    requires i <= |t|
    ensures ok == OnlySpace(t, i)
  {
    var cursor := i;
    while cursor != |t|
      invariant i <= cursor <= |t| && OnlySpace(t, cursor) == OnlySpace(t, i)
      decreases |t| - cursor
    {
      if !IsSpace(t[cursor]) {
        return false;
      }
      cursor := cursor + 1;
    }
    return true;
  }

  method CompleteTimeFun(t: string, s: State, total: real) returns (n: Option<State>, total': real)
    requires Inv(t, s) && s.cursor < |t| && s.phase == CompleteTime && total == Total(s.addends)
    ensures n == TimeScan.CompleteTimeFun(t, s)
    ensures n.Some? ==> total' == Total(n.value.addends)
  {
    ColonsFrom(t, s.cursor, s.cursor + 1);
    var i := s.cursor + 1;
    if i == |t| || !IsDigit(t[i]) {
      return None, total;
    }
    var num, cursor := ComposeNum(t, i);
    NumEndStops(t, i + 1, 0);
    var c;
    if cursor == |t| && IsDigit(t[cursor - 1]) {
      var dotPos := Find(num, '.', 0);
      if (dotPos != |num| && dotPos != 2) || (dotPos == |num| && |num| != 2) {
        return None, total;
      }
      c := t[cursor - 1];
    } else {
      cursor := cursor - 1;
      c := t[cursor];
      if c == ':' {
        if '.' in num || |num| != 2 {
          return None, total;
        }
      } else {
        var blank := SkipSpace(t, cursor);
        if !blank {
          return None, total;
        }
        cursor := |t|;
      }
    }
    total' := IncSec(s.addends, num, s.secs[0], total);
    n := Some(s.(cursor := cursor, c := c, recent := num,
                 secs := s.secs[1..], addends := s.addends + [Addend(num, s.secs[0])]));
  }

  predicate IsTrimmed(ch: char) { ch == ' ' || ch == '\r' || ch == '\t' || ch == '\n' }

  /** What is left of a cell between its first and last character that is not a blank, tab or line end. */
  function Trim(sv: string): string {
    if sv == "" then ""
    else if IsTrimmed(sv[0]) then Trim(sv[1..])
    else if IsTrimmed(sv[|sv| - 1]) then Trim(sv[..|sv| - 1])
    else sv
  }

  method FirstNotTrimmed(sv: string) returns (i: nat)
    ensures i <= |sv| && (i < |sv| ==> !IsTrimmed(sv[i])) && Trim(sv) == Trim(sv[i..])
  {
    i := 0;
    assert sv[0..] == sv;
    while i < |sv| && IsTrimmed(sv[i])
      invariant i <= |sv| && Trim(sv) == Trim(sv[i..])
    {
      assert sv[i..][1..] == sv[i + 1..];
      i := i + 1;
    }
  }

  method LastNotTrimmed(sv: string, beg: nat) returns (e: nat)
    requires beg < |sv| && !IsTrimmed(sv[beg])
    ensures beg < e <= |sv| && !IsTrimmed(sv[e - 1]) && Trim(sv[beg..]) == sv[beg..e]
  {
    e := |sv|;
    assert sv[beg..|sv|] == sv[beg..];
    while IsTrimmed(sv[e - 1])
      invariant beg < e <= |sv| && Trim(sv[beg..]) == Trim(sv[beg..e])
      decreases e
    {
      assert sv[beg..e][..e - beg - 1] == sv[beg..e - 1];
      e := e - 1;
    }
  }

  /** `time_parser::parse`: whether the cell is a timedelta, and the sum of its parts. */
  method ParseTimedelta(sv: string) returns (ok: bool, total: real)
    ensures ok == Parse(Trim(sv)).Some?
    ensures ok ==> total == Parse(Trim(sv)).value
  {
    total := 0.0;
    var beg := FirstNotTrimmed(sv);
    if beg == |sv| {
      return false, 0.0;
    }
    var end := LastNotTrimmed(sv, beg);
    var t := sv[beg..end];
    if |t| == 1 || ('h' in t && Colons(t, 0) > 0) || Colons(t, 0) > 3
       || (Colons(t, 0) == 3 && ('w' in t || 'd' in t)) {
      return false, 0.0;
    }
    StartInv(t);
    var s := Start(t);
    while s.cursor != |t|
      invariant Inv(t, s) && total == Total(s.addends) && Run(t, s) == Run(t, Start(t))
      decreases |t| - s.cursor, Rank(s.phase)
    {
      var n: Option<State>;
      match s.phase {
        case Digit => n, total := DigitFun(t, s, total);
        case Word => n, total := WordFun(t, s, total);
        case CompleteTime => n, total := CompleteTimeFun(t, s, total);
      }
      if n.None? {
        return false, 0.0;
      }
      StepProgress(t, s);
      RunStep(t, s, n.value);
      s := n.value;
    }
    return true, total;
  }
}
