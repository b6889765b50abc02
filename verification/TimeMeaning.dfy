/**
 What the timedelta scanner accepts and what it computes, stated on the text alone: the numbers
 of the text, the words of the text and its colons, each found by a scan that knows nothing of
 the scanner's phases.
 */
module TimeMeaning {
  import opened Text
  import opened TimeScan

  /** The maximal numerals of `t` from `i` on. */
  function Numbers(t: string, i: nat): seq<string>
    requires i <= |t|
    decreases |t| - i
  {
    if i == |t| then []
    else if IsDigit(t[i]) then
      [t[i..NumEnd(t, i + 1, 0)]] + Numbers(t, NumEnd(t, i + 1, 0))
    else Numbers(t, i + 1)
  }

  /** The words of `t` from `i` on, commas inside them dropped. */
  function Words(t: string, i: nat): seq<string>
    requires i <= |t|
    decreases |t| - i
  {
    if i == |t| then []
    else if IsAlpha(t[i]) then [Letters(t[i..WordEnd(t, i + 1)])] + Words(t, WordEnd(t, i + 1))
    else Words(t, i + 1)
  }

  function Weights(words: seq<string>): (ws: seq<nat>)
    ensures |ws| == |words|
  {
    seq(|words|, i requires 0 <= i < |words| => Weight(words[i]))
  }

  function Pair(nums: seq<string>, weights: seq<nat>): (r: seq<Addend>)
    requires |nums| == |weights|
    ensures |r| == |nums|
  {
    seq(|nums|, i requires 0 <= i < |nums| => Addend(nums[i], weights[i]))
  }

  /** Every word is a unit word and the units get strictly smaller; the first group allowed is `from`. */
  ghost predicate Descending(words: seq<string>, from: nat) {
    words == [] ||
    (from <= GroupOf(0, words[0]) < |SYMBOLS| && Descending(words[1..], GroupOf(0, words[0]) + 1))
  }

  // ---- stretches of text that one of the scans passes over ----

  lemma {:induction false} NoNumbers(t: string, i: nat, j: nat)
    requires i <= j <= |t| && forall k :: i <= k < j ==> !IsDigit(t[k])
    ensures Numbers(t, i) == Numbers(t, j)
    decreases j - i
  {
    if i < j { NoNumbers(t, i + 1, j); }
  }

  lemma {:induction false} NoWords(t: string, i: nat, j: nat)
    requires i <= j <= |t| && forall k :: i <= k < j ==> !IsAlpha(t[k])
    ensures Words(t, i) == Words(t, j)
    decreases j - i
  {
    if i < j { NoWords(t, i + 1, j); }
  }

  lemma {:induction false} NoColons(t: string, i: nat, j: nat)
    requires i <= j <= |t| && forall k :: i <= k < j ==> t[k] != ':'
    ensures Colons(t, i) == Colons(t, j)
    decreases j - i
  {
    if i < j { NoColons(t, i + 1, j); }
  }

  lemma {:induction false} Separators(t: string, i: nat, j: nat)
    requires i <= j <= |t| && forall k :: i <= k < j ==> IsSpace(t[k]) || t[k] == ','
    ensures Numbers(t, i) == Numbers(t, j) && Words(t, i) == Words(t, j) && Colons(t, i) == Colons(t, j)
  {
    NoNumbers(t, i, j);
    NoWords(t, i, j);
    NoColons(t, i, j);
  }

  lemma {:induction false} NumeralRead(t: string, i: nat)
    requires i < |t| && IsDigit(t[i])
    ensures var j := NumEnd(t, i + 1, 0);
      && Numbers(t, i) == [t[i..j]] + Numbers(t, j) && Words(t, i) == Words(t, j) && Colons(t, i) == Colons(t, j)
  {
    var j := NumEnd(t, i + 1, 0);
    NumEndChars(t, i + 1, 0);
    NoWords(t, i, j);
    NoColons(t, i, j);
  }

  lemma {:induction false} WordRead(t: string, i: nat)
    requires i < |t| && IsAlpha(t[i])
    ensures var j := WordEnd(t, i + 1);
      && Words(t, i) == [Letters(t[i..j])] + Words(t, j) && Numbers(t, i) == Numbers(t, j)
      && Colons(t, i) == Colons(t, j)
  {
    var j := WordEnd(t, i + 1);
    WordEndChars(t, i + 1);
    NoNumbers(t, i, j);
    NoColons(t, i, j);
  }

  // ---- unit groups ----

  lemma {:induction false} GroupInitial(k: nat, word: string)
    requires k < |SYMBOLS| && word in SYMBOLS[k]
    ensures |word| >= 1 && word[0] == "wdhms"[k]
  {
  }

  lemma {:induction false} GroupUnique(k: nat, l: nat, word: string)
    requires k < |SYMBOLS| && l < |SYMBOLS| && word in SYMBOLS[k] && word in SYMBOLS[l]
    ensures k == l
  {
    GroupInitial(k, word);
    GroupInitial(l, word);
  }

  /** A word found among the groups that are left is found at the same place among all groups. */
  lemma {:induction false} GroupAmongLeft(from: nat, word: string)
    requires from <= |SYMBOLS| && GroupOf(from, word) < |SYMBOLS|
    ensures GroupOf(0, word) == GroupOf(from, word)
  {
    var k := GroupOf(from, word);
    GroupIsFirst(0, word, k);
    GroupUnique(GroupOf(0, word), k, word);
  }

  // ---- what a run that succeeds has read ----

  /** One weight of `sec_deq` for every time field still to come. */
  ghost predicate Exact(t: string, s: State)
    requires s.cursor <= |t|
  {
    |s.secs| == Colons(t, s.cursor) + (if s.phase != CompleteTime && Colons(t, s.cursor) > 0 then 1 else 0)
  }

  ghost function Pending(t: string, s: State): seq<string>
    requires s.cursor <= |t|
  {
    (if s.phase == Word && s.cursor < |t| then [s.recent] else []) + Numbers(t, s.cursor)
  }

  ghost function Due(t: string, s: State): seq<nat>
    requires s.cursor <= |t|
  {
    Weights(Words(t, s.cursor)) + s.secs
  }

  /** The numbers and weights still to be read are what `addends` adds to those read already. */
  ghost predicate Means(t: string, s: State, addends: seq<Addend>)
    requires s.cursor <= |t| && s.group <= |SYMBOLS|
  {
    && |Pending(t, s)| == |Due(t, s)|
    && addends == s.addends + Pair(Pending(t, s), Due(t, s))
    && Descending(Words(t, s.cursor), s.group)
    && (s.phase == CompleteTime ==> Words(t, s.cursor) == [])
  }

  /** What one turn takes from the pending numbers and the weights due: nothing, or one of each. */
  ghost predicate Takes(t: string, s: State, s': State, n: seq<string>, w: seq<nat>)
    requires s.cursor <= |t| && s'.cursor <= |t|
  {
    && |n| == |w|
    && Pending(t, s) == n + Pending(t, s')
    && Due(t, s) == w + Due(t, s')
    && s'.addends == s.addends + Pair(n, w)
  }

  lemma {:induction false} PairAppend(n: seq<string>, w: seq<nat>, ns: seq<string>, ws: seq<nat>)
    requires |n| == |w| && |ns| == |ws|
    ensures Pair(n + ns, w + ws) == Pair(n, w) + Pair(ns, ws)
  {
  }

  lemma {:induction false} TakesMeans(t: string, s: State, s': State, n: seq<string>, w: seq<nat>, addends: seq<Addend>)
    requires s.cursor <= |t| && s'.cursor <= |t|
    requires |Pending(t, s')| == |Due(t, s')| && addends == s'.addends + Pair(Pending(t, s'), Due(t, s'))
    requires Takes(t, s, s', n, w)
    ensures |Pending(t, s)| == |Due(t, s)| && addends == s.addends + Pair(Pending(t, s), Due(t, s))
  {
    PairAppend(n, w, Pending(t, s'), Due(t, s'));
  }

  /** The separators that `space_fun` passes over hold no number, word or colon. */
  lemma {:induction false} SpaceFunReads(t: string, s: State)
    requires s.cursor <= |t| && SpaceFun(t, s).Some?
    ensures var i := SpaceFun(t, s).value.0 - 1;
      && s.cursor <= i < |t|
      && Numbers(t, s.cursor) == Numbers(t, i) && Words(t, s.cursor) == Words(t, i)
      && Colons(t, s.cursor) == Colons(t, i)
  {
    SkipChars(t, s.cursor, s.c, s.commas);
    Separators(t, s.cursor, SpaceFun(t, s).value.0 - 1);
  }

  /** A number that ends the text is stepped back over and then refused as a word. */
  lemma {:induction false} BareNumberFails(t: string, s: State)
    requires Inv(t, s) && s.phase == Word && s.cursor == |t| - 1
    requires s.c == t[s.cursor] && IsNumChar(s.c)
    ensures WordFun(t, s).None?
  {
    if s.commas <= 1 {
      assert Skip(t, s.cursor, s.c, s.commas) == Some((|t|, s.commas));
    }
  }

  lemma {:induction false} TrailingCommaFails(t: string, s: State)
    requires Inv(t, s) && s.phase == Digit && s.started && s.cursor == |t| - 1 && t[s.cursor] == ','
    ensures DigitFun(t, s).None?
  {
  }

  lemma {:induction false} WordTakes(t: string, s: State, s': State, word: string)
    requires s.cursor < |t| && s.phase == Word && s'.cursor <= |t| && (s'.phase == Word ==> s'.cursor == |t|)
    requires Numbers(t, s.cursor) == Numbers(t, s'.cursor) && Words(t, s.cursor) == [word] + Words(t, s'.cursor)
    requires s'.secs == s.secs && s'.addends == s.addends + [Addend(s.recent, Weight(word))]
    ensures Takes(t, s, s', [s.recent], [Weight(word)])
  {
    assert Weights(Words(t, s.cursor)) == [Weight(word)] + Weights(Words(t, s'.cursor));
    assert Pair([s.recent], [Weight(word)]) == [Addend(s.recent, Weight(word))];
  }

  lemma {:induction false} FieldTakes(t: string, s: State, s': State)
    requires s.cursor < |t| && s.phase != Word && s'.cursor <= |t| && s'.phase == CompleteTime && s.secs != []
    requires Numbers(t, s.cursor) == [s'.recent] + Numbers(t, s'.cursor)
    requires Words(t, s.cursor) == Words(t, s'.cursor) == []
    requires s'.secs == s.secs[1..] && s'.addends == s.addends + [Addend(s'.recent, s.secs[0])]
    ensures Takes(t, s, s', [s'.recent], [s.secs[0]])
  {
    assert Pair([s'.recent], [s.secs[0]]) == [Addend(s'.recent, s.secs[0])];
  }

  lemma {:induction false} DigitReads(t: string, s: State)
    requires Inv(t, s) && s.cursor < |t| && s.phase == Digit && DigitFun(t, s).Some? && Exact(t, s)
    ensures var s' := DigitFun(t, s).value;
      && Inv(t, s') && Exact(t, s') && s'.started
      && (if s'.phase == CompleteTime
          then s.secs != [] && s'.secs == s.secs[1..] && s'.addends == s.addends + [Addend(s'.recent, s.secs[0])]
          else s'.phase == Word && s'.secs == s.secs && s'.addends == s.addends)
      && (Run(t, s').Some? ==>
        && s'.cursor < |t|
        && Words(t, s.cursor) == Words(t, s'.cursor)
        && Numbers(t, s.cursor) == [s'.recent] + Numbers(t, s'.cursor)
        && s'.group == s.group)
  {
    DigitProgress(t, s);
    var s' := DigitFun(t, s).value;
    var i := if s.started then SpaceFun(t, s).value.0 - 1 else s.cursor;
    if s.started { SpaceFunReads(t, s); }
    var j := NumEnd(t, i + 1, 0);
    NumeralRead(t, i);
    hide Words, Numbers;
    if j == |t| {
      NumEndChars(t, i + 1, 0);
      BareNumberFails(t, s');
    }
  }

  lemma {:induction false} WordReads(t: string, s: State)
    requires Inv(t, s) && s.cursor < |t| && s.phase == Word && s.started && WordFun(t, s).Some? && Exact(t, s)
    ensures var s' := WordFun(t, s).value;
      && Inv(t, s') && Exact(t, s') && s'.started
      && (Run(t, s').Some? ==>
        && Words(t, s.cursor) != []
        && var word := Words(t, s.cursor)[0];
          && Words(t, s.cursor) == [word] + Words(t, s'.cursor)
          && Numbers(t, s.cursor) == Numbers(t, s'.cursor)
          && s.group <= GroupOf(0, word) < |SYMBOLS| && s'.group == GroupOf(0, word) + 1
          && s'.addends == s.addends + [Addend(s.recent, Weight(word))])
  {
    WordProgress(t, s);
    var s' := WordFun(t, s).value;
    SpaceFunReads(t, s);
    var i := SpaceFun(t, s).value.0 - 1;
    var j := WordEnd(t, i + 1);
    WordRead(t, i);
    GroupAmongLeft(s.group, Letters(t[i..j]));
    if j == |t| && !IsAlpha(t[|t| - 1]) {
      WordEndChars(t, i + 1);
      TrailingCommaFails(t, s');
    }
  }

  lemma {:induction false} CompleteTimeReads(t: string, s: State)
    requires Inv(t, s) && s.cursor < |t| && s.phase == CompleteTime && CompleteTimeFun(t, s).Some? && Exact(t, s)
    ensures var s' := CompleteTimeFun(t, s).value;
      && Inv(t, s') && Exact(t, s') && s'.phase == CompleteTime
      && Words(t, s.cursor) == Words(t, s'.cursor)
      && Numbers(t, s.cursor) == [s'.recent] + Numbers(t, s'.cursor)
      && s.secs != [] && s'.secs == s.secs[1..] && s'.addends == s.addends + [Addend(s'.recent, s.secs[0])]
      && s'.group == s.group
  {
    CompleteTimeProgress(t, s);
    var s' := CompleteTimeFun(t, s).value;
    var i := s.cursor + 1;
    var j := NumEnd(t, i + 1, 0);
    NoNumbers(t, s.cursor, i);
    NoWords(t, s.cursor, i);
    NumeralRead(t, i);
    if s'.cursor == |t| && j < |t| {
      OnlySpaceChars(t, j);
      Separators(t, j, |t|);
    }
  }

  lemma {:induction false} EndMeans(t: string, s: State)
    requires Inv(t, s) && Exact(t, s) && s.cursor == |t|
    ensures Means(t, s, s.addends)
  {
    assert Pending(t, s) == [] && Due(t, s) == [];
  }

  lemma {:induction false} RunMeans(t: string, s: State)
    requires Inv(t, s) && Exact(t, s) && (s.phase == Word ==> s.started) && Run(t, s).Some?
    ensures Means(t, s, Run(t, s).value.addends)
    decreases |t| - s.cursor, Rank(s.phase)
  {
    hide DigitFun, WordFun, CompleteTimeFun, Numbers, Words, Colons, Weights, Pair;
    if s.cursor == |t| {
      EndMeans(t, s);
    } else {
      StepProgress(t, s);
      var s' := Step(t, s).value;
      var addends := Run(t, s).value.addends;
      match s.phase
      case Digit =>
        DigitReads(t, s);
        RunMeans(t, s');
        if s'.phase == CompleteTime {
          FieldTakes(t, s, s');
          TakesMeans(t, s, s', [s'.recent], [s.secs[0]], addends);
        } else {
          assert Takes(t, s, s', [], []);
          TakesMeans(t, s, s', [], [], addends);
        }
      case Word =>
        WordReads(t, s);
        RunMeans(t, s');
        WordTakes(t, s, s', Words(t, s.cursor)[0]);
        TakesMeans(t, s, s', [s.recent], [Weight(Words(t, s.cursor)[0])], addends);
      case CompleteTime =>
        CompleteTimeReads(t, s);
        RunMeans(t, s');
        FieldTakes(t, s, s');
        TakesMeans(t, s, s', [s'.recent], [s.secs[0]], addends);
    }
  }

  /** The weight of every number of the text: its units first, then its time fields. */
  function TextWeights(t: string): seq<nat> {
    Weights(Words(t, 0)) + ClockWeights(Colons(t, 0))
  }

  /** Whatever the scanner accepts: each number of the text has a unit word or is a time field (so
      none is left bare), units only get smaller, and the result is the weighted sum of all of them. */
  lemma {:induction false} AcceptedMeans(t: string)
    requires Parse(t).Some?
    ensures Descending(Words(t, 0), 0)
    ensures |Numbers(t, 0)| == |TextWeights(t)| && Numbers(t, 0) != []
    ensures Parse(t).value == Total(Pair(Numbers(t, 0), TextWeights(t)))
  {
    StartInv(t);
    RunMeans(t, Start(t));
    assert Pending(t, Start(t)) == Numbers(t, 0);
    var r := Run(t, Start(t)).value;
    assert r.addends == Pair(Numbers(t, 0), TextWeights(t));
  }
}
