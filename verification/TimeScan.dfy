/**
 The timedelta scanner (suite/include/reader-bridge-impl.hpp, class time_parser) as a
 state machine over a trimmed text `t`: what one call of each of its three phases does to
 the scanner's variables, and the run that repeats them until the text is exhausted.
 */
module TimeScan {
  import opened Text

  /** `fun_type`: the lambda that the next turn of the loop calls. */
  datatype Phase = Digit | Word | CompleteTime

  datatype State = State(
    cursor: nat,             // index of the next character to read
    c: char,                 // last character read
    started: bool,           // false while `space_fn` is still `initial_space_func`
    commas: nat,             // an unsigned char: additions wrap at 256
    group: nat,              // groups popped from sym_deq so far
    secs: seq<nat>,          // sec_deq
    phase: Phase,
    recent: string,          // recent_num
    addends: seq<Addend>)    // what total_sec is the sum of

  /** A number as written, and the seconds it counts. */
  datatype Addend = Addend(num: string, weight: nat)

  const SYMBOLS: seq<seq<string>> := [
    ["w", "wk", "week", "weeks"],
    ["d", "day", "days"],
    ["h", "hr", "hrs", "hour", "hours"],
    ["m", "min", "mins", "minute", "minutes"],
    ["s", "sec", "secs", "second", "seconds"]]

  /** Seconds in each group of `SYMBOLS`. */
  const WEIGHTS: seq<nat> := [604800, 86400, 3600, 60, 1]

  // ---- numerals ----

  predicate IsNumChar(c: char) { IsDigit(c) || c == '.' }

  predicate OneDot(s: string) { forall i, j :: 0 <= i < j < |s| ==> s[i] != '.' || s[j] != '.' }

  predicate IsNumeral(s: string) {
    |s| >= 1 && IsDigit(s[0]) && (forall i :: 0 <= i < |s| ==> IsNumChar(s[i])) && OneDot(s)
  }

  /** `total_sec`: every `inc_sec` adds the value of a number times its weight. */
  function Total(addends: seq<Addend>): real {
    if addends == [] then 0.0
    else
      var last := addends[|addends| - 1];
      Total(addends[..|addends| - 1]) + NumeralValue(last.num) * last.weight as real
  }

  /** One past the longest run of digits with at most one dot from `i` on, `dots` seen already. */
  function NumEnd(t: string, i: nat, dots: nat): (r: nat)
    requires i <= |t| && dots <= 1
    ensures i <= r <= |t|
    decreases |t| - i
  {
    if i == |t| then i
    else
      var dots' := if t[i] == '.' then dots + 1 else dots;
      if dots' < 2 && IsNumChar(t[i]) then NumEnd(t, i + 1, dots') else i
  }

  lemma {:induction false} NumEndChars(t: string, i: nat, dots: nat)
    requires i <= |t| && dots <= 1
    ensures var r := NumEnd(t, i, dots);
      (forall k :: i <= k < r ==> IsNumChar(t[k])) && (r < |t| ==> !IsDigit(t[r]))
    decreases |t| - i
  {
    if i < |t| && IsNumChar(t[i]) && (t[i] != '.' || dots == 0) {
      NumEndChars(t, i + 1, if t[i] == '.' then 1 else dots);
    }
  }

  lemma {:induction false} NumEndStops(t: string, i: nat, dots: nat)
    requires i <= |t| && dots <= 1
    ensures var r := NumEnd(t, i, dots); r < |t| ==> !IsDigit(t[r])
  {
    NumEndChars(t, i, dots);
  }

  /** One past the run of letters and commas from `i` on. */
  function WordEnd(t: string, i: nat): (r: nat)
    requires i <= |t|
    ensures i <= r <= |t|
    decreases |t| - i
  {
    if i < |t| && (IsAlpha(t[i]) || t[i] == ',') then WordEnd(t, i + 1) else i
  }

  lemma {:induction false} WordEndChars(t: string, i: nat)
    requires i <= |t|
    ensures var r := WordEnd(t, i);
      (forall k :: i <= k < r ==> IsAlpha(t[k]) || t[k] == ',') && (r < |t| ==> !IsAlpha(t[r]) && t[r] != ',')
    decreases |t| - i
  {
    if i < |t| && (IsAlpha(t[i]) || t[i] == ',') { WordEndChars(t, i + 1); }
  }

  lemma {:induction false} WordEndStops(t: string, i: nat)
    requires i <= |t|
    ensures var r := WordEnd(t, i); r < |t| ==> !IsAlpha(t[r]) && t[r] != ','
  {
    WordEndChars(t, i);
  }

  function Letters(s: string): (r: string) {
    if s == "" then "" else Letters(s[..|s| - 1]) + (if s[|s| - 1] == ',' then "" else [s[|s| - 1]])
  }

  /** `commas`, an unsigned char, after the commas of `s` were counted too. */
  function CommasAfter(start: nat, s: string): (n: nat)
    requires start < 256
    ensures n < 256
  {
    if s == "" then start
    else
      var n := CommasAfter(start, s[..|s| - 1]);
      if s[|s| - 1] != ',' then n else if n == 255 then 0 else n + 1
  }

  lemma {:induction false} ReadOn(t: string, i: nat, k: nat, start: nat)
    requires i <= k < |t| && start < 256
    ensures Letters(t[i..k + 1]) == Letters(t[i..k]) + (if t[k] == ',' then "" else [t[k]])
    ensures var n := CommasAfter(start, t[i..k]);
      CommasAfter(start, t[i..k + 1]) == if t[k] != ',' then n else if n == 255 then 0 else n + 1
  {
    assert t[i..k + 1][..k - i] == t[i..k];
  }

  /** Occurrences of ':' at or after `i`. */
  function Colons(t: string, i: nat): nat
    requires i <= |t|
    decreases |t| - i
  {
    if i == |t| then 0 else (if t[i] == ':' then 1 else 0) + Colons(t, i + 1)
  }

  lemma {:induction false} ColonsFrom(t: string, i: nat, j: nat)
    requires i <= j <= |t|
    ensures Colons(t, i) >= Colons(t, j)
    ensures i < j && t[i] == ':' ==> Colons(t, i) > Colons(t, j)
    decreases j - i
  {
    if i < j { ColonsFrom(t, i + 1, j); }
  }

  // ---- one turn of the loop ----

  /** The loop of `space_fun`: the position after the first character that is neither a space
      nor a comma, and the comma count. */
  function Skip(t: string, cursor: nat, c: char, commas: nat): (r: Option<(nat, nat)>)
    requires cursor <= |t| && commas <= 1
    ensures r.Some? ==> cursor < r.value.0 <= |t| && r.value.1 <= 1
    decreases |t| - cursor
  {
    var commas' := if c == ',' then commas + 1 else commas;
    if cursor == |t| || commas' > 1 then None
    else if !IsSpace(t[cursor]) && t[cursor] != ',' then Some((cursor + 1, commas'))
    else Skip(t, cursor + 1, t[cursor], commas')
  }

  lemma {:induction false} SkipChars(t: string, cursor: nat, c: char, commas: nat)
    requires cursor <= |t| && commas <= 1 && Skip(t, cursor, c, commas).Some?
    ensures forall k :: cursor <= k < Skip(t, cursor, c, commas).value.0 - 1 ==> IsSpace(t[k]) || t[k] == ','
    decreases |t| - cursor
  {
    if IsSpace(t[cursor]) || t[cursor] == ',' {
      SkipChars(t, cursor + 1, t[cursor], if c == ',' then commas + 1 else commas);
    }
  }

  function SpaceFun(t: string, s: State): (r: Option<(nat, nat)>)
    requires s.cursor <= |t|
    ensures r.Some? ==> s.cursor < r.value.0 <= |t| && r.value.1 <= 1
  {
    if s.commas > 1 then None else Skip(t, s.cursor, s.c, s.commas)
  }

  /** Where the cursor stands after a maximal run that ended at `j` was read and stepped back. */
  function Back(t: string, j: nat): (r: nat)
    requires 1 <= j <= |t|
    ensures r < |t| && j - 1 <= r <= j
  {
    if j < |t| then j else |t| - 1
  }

  /** What every state between two turns satisfies; it is what makes each turn safe. */
  ghost predicate Inv(t: string, s: State) {
    && s.cursor <= |t|
    && s.commas < 256
    && s.group <= |SYMBOLS|
    && (s.phase == CompleteTime && s.cursor < |t| ==> t[s.cursor] == ':')
    && (s.phase == CompleteTime ==> |s.secs| >= Colons(t, s.cursor))
    && (s.phase != CompleteTime ==> Colons(t, s.cursor) == 0 || |s.secs| >= Colons(t, s.cursor) + 1)
  }

  function DigitFun(t: string, s: State): Option<State>
    requires Inv(t, s) && s.cursor < |t| && s.phase == Digit
  {
    var r := if s.started then SpaceFun(t, s) else Some((s.cursor + 1, s.commas));
    if r.None? || !IsDigit(t[r.value.0 - 1]) then None
    else
      var i := r.value.0 - 1;
      var j := NumEnd(t, i + 1, 0);
      var num := t[i..j];
      var at := Back(t, j);
      if t[at] == ':' then
        if '.' in num then None
        else
          ColonsFrom(t, s.cursor, at);
          Some(s.(cursor := at, c := ':', started := true, commas := r.value.1, secs := s.secs[1..],
                  phase := CompleteTime, recent := num, addends := s.addends + [Addend(num, s.secs[0])]))
      else
        Some(s.(cursor := at, c := t[at], started := true, commas := 0, phase := Word, recent := num))
  }

  /** First group at or after `from` that holds `word`; the number of groups when none does. */
  function GroupOf(from: nat, word: string): (g: nat)
    requires from <= |SYMBOLS|
    ensures from <= g <= |SYMBOLS|
    ensures g < |SYMBOLS| ==> word in SYMBOLS[g]
    decreases |SYMBOLS| - from
  {
    if from == |SYMBOLS| || word in SYMBOLS[from] then from else GroupOf(from + 1, word)
  }

  lemma {:induction false} GroupIsFirst(from: nat, word: string, k: nat)
    requires from <= k < |SYMBOLS| && word in SYMBOLS[k]
    ensures GroupOf(from, word) <= k
    decreases k - from
  {
    if word !in SYMBOLS[from] { GroupIsFirst(from + 1, word, k); }
  }

  function Weight(word: string): nat {
    var g := GroupOf(0, word);
    if g < |WEIGHTS| then WEIGHTS[g] else 0
  }

  /** A word without its commas, the comma count after it, and one past where it ends. */
  datatype WordRead = WordRead(word: string, commas: nat, end: nat)

  function ReadWord(t: string, s: State): (w: Option<WordRead>)
    requires s.cursor < |t|
    ensures w.Some? ==> s.cursor < w.value.end <= |t|
  {
    var r := SpaceFun(t, s);
    if r.None? || !IsAlpha(t[r.value.0 - 1]) then None
    else
      var i := r.value.0 - 1;
      var j := WordEnd(t, i + 1);
      Some(WordRead(Letters(t[i..j]), CommasAfter(r.value.1, t[i..j]), j))
  }

  function WordFun(t: string, s: State): (n: Option<State>)
    requires s.cursor < |t| && s.commas < 256 && s.group <= |SYMBOLS|
    ensures n.Some? ==> s.cursor < n.value.cursor <= |t| && n.value.secs == s.secs && n.value.commas < 256
    ensures n.Some? ==> n.value.phase == Digit || (n.value.phase == s.phase && n.value.cursor == |t|)
    ensures n.Some? ==> s.group < n.value.group <= |SYMBOLS|
  {
    var w := ReadWord(t, s);
    if w.None? then None
    else
      var WordRead(word, commas, j) := w.value;
      var g := GroupOf(s.group, word);
      if g == |SYMBOLS| then None
      else
        var last := j == |t| && IsAlpha(t[|t| - 1]);
        var at := if last then |t| else Back(t, j);
        Some(s.(cursor := at, c := t[if last then |t| - 1 else at], commas := commas, group := g + 1,
                phase := if last then s.phase else Digit, addends := s.addends + [Addend(s.recent, Weight(word))]))
  }

  /** Whether nothing but white space is left from `i` on. */
  predicate OnlySpace(t: string, i: nat)
    requires i <= |t|
    decreases |t| - i
  {
    i == |t| || (IsSpace(t[i]) && OnlySpace(t, i + 1))
  }

  lemma {:induction false} OnlySpaceChars(t: string, i: nat)
    requires i <= |t| && OnlySpace(t, i)
    ensures forall k :: i <= k < |t| ==> IsSpace(t[k])
    decreases |t| - i
  {
    if i < |t| { OnlySpaceChars(t, i + 1); }
  }

  function CompleteTimeFun(t: string, s: State): Option<State>
    requires Inv(t, s) && s.cursor < |t| && s.phase == CompleteTime
  {
    var i := s.cursor + 1;
    if i == |t| || !IsDigit(t[i]) then None
    else
      var j := NumEnd(t, i + 1, 0);
      var num := t[i..j];
      ColonsFrom(t, s.cursor, s.cursor + 1);
      var whole := j == |t| && IsDigit(t[|t| - 1]);
      var at := Back(t, j);
      if (if whole then Find(num, '.', 0) != 2
          else if t[at] == ':' then '.' in num || |num| != 2
          else !OnlySpace(t, at)) then None
      else
        Some(s.(cursor := if !whole && t[at] == ':' then at else |t|, c := t[at], recent := num,
                secs := s.secs[1..], addends := s.addends + [Addend(num, s.secs[0])]))
  }

  /** One turn of the loop. */
  function Step(t: string, s: State): Option<State>
    requires Inv(t, s) && s.cursor < |t|
  {
    match s.phase
    case Digit => DigitFun(t, s)
    case Word => WordFun(t, s)
    case CompleteTime => CompleteTimeFun(t, s)
  }

  /** Digit ranks above word: a turn that steps the cursor back to where it was moves from one
      to the other. */
  function Rank(p: Phase): nat {
    match p case Digit => 1 case Word => 0 case CompleteTime => 0
  }

  ghost predicate Progress(t: string, s: State, s': State) {
    Inv(t, s') && (s.cursor < s'.cursor || (s.cursor == s'.cursor && Rank(s'.phase) < Rank(s.phase)))
  }

  lemma {:induction false} DigitProgress(t: string, s: State)
    requires Inv(t, s) && s.cursor < |t| && s.phase == Digit && DigitFun(t, s).Some?
    ensures Progress(t, s, DigitFun(t, s).value)
  {
    var s' := DigitFun(t, s).value;
    ColonsFrom(t, s.cursor, s'.cursor);
  }

  lemma {:induction false} WordProgress(t: string, s: State)
    requires Inv(t, s) && s.cursor < |t| && s.phase == Word && WordFun(t, s).Some?
    ensures Progress(t, s, WordFun(t, s).value)
  {
    var s' := WordFun(t, s).value;
    ColonsFrom(t, s.cursor, s'.cursor);
  }

  lemma {:induction false} CompleteTimeProgress(t: string, s: State)
    requires Inv(t, s) && s.cursor < |t| && s.phase == CompleteTime && CompleteTimeFun(t, s).Some?
    ensures Progress(t, s, CompleteTimeFun(t, s).value)
  {
    ColonsFrom(t, s.cursor, s.cursor + 1);
    ColonsFrom(t, s.cursor + 1, CompleteTimeFun(t, s).value.cursor);
  }

  lemma {:induction false} StepProgress(t: string, s: State)
    requires Inv(t, s) && s.cursor < |t| && Step(t, s).Some?
    ensures Progress(t, s, Step(t, s).value)
  {
    match s.phase
    case Digit => DigitProgress(t, s);
    case Word => WordProgress(t, s);
    case CompleteTime => CompleteTimeProgress(t, s);
  }

  /** The loop: turns until the text is exhausted or a turn fails. */
  function Run(t: string, s: State): (r: Option<State>)
    requires Inv(t, s)
    ensures r.Some? ==> Inv(t, r.value) && r.value.cursor == |t|
    decreases |t| - s.cursor, Rank(s.phase)
  {
    if s.cursor == |t| then Some(s)
    else
      var n := Step(t, s);
      if n.None? then None
      else
        StepProgress(t, s);
        Run(t, n.value)
  }

  lemma {:induction false} RunStep(t: string, s: State, s': State)
    requires Inv(t, s) && s.cursor < |t| && Step(t, s) == Some(s')
    ensures Inv(t, s') && Run(t, s) == Run(t, s')
  {
    StepProgress(t, s);
  }

  lemma {:induction false} RunEnd(t: string, s: State)
    requires Inv(t, s) && s.cursor == |t|
    ensures Run(t, s) == Some(s)
  {
  }

  /** `sec_deq` as filled before the loop. */
  function ClockWeights(colons: nat): (w: seq<nat>)
    ensures colons <= 3 ==> |w| == (if colons == 0 then 0 else colons + 1)
  {
    (if colons > 2 then [86400] else []) + (if colons > 1 then [3600] else [])
    + (if colons > 0 then [60, 1] else [])
  }

  function Start(t: string): State {
    State(0, '\0', false, 0, 0, ClockWeights(Colons(t, 0)), Digit, "", [])
  }

  lemma {:induction false} StartInv(t: string)
    requires Colons(t, 0) <= 3
    ensures Inv(t, Start(t))
  {
  }

  /** The tests made before the loop: at least two characters; no 'h' beside a ':'; at most three
      colons, and with three of them no 'w' or 'd'. */
  predicate Admissible(t: string) {
    && |t| >= 2
    && !('h' in t && Colons(t, 0) > 0)
    && Colons(t, 0) <= 3
    && !(Colons(t, 0) == 3 && ('w' in t || 'd' in t))
  }

  /** `total_sec` when `parse` accepts the trimmed text `t`, nothing when it refuses it. */
  function Parse(t: string): (r: Option<real>) {
    if !Admissible(t) then None
    else
      StartInv(t);
      var r := Run(t, Start(t));
      if r.None? then None else Some(Total(r.value.addends))
  }
}
