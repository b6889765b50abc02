/**
 The column tasks as they run: the passes of one column over its cells in place, and any interleaving of
 the tasks of all columns, one call of a pass's lambda being a step.

 What is found is used here to show that with aligned blanks the typed comparison of joined columns never
 gets a null of either table.
 */
module TypifyTasks {
  import opened Text
  import opened Numeral
  import opened Comparators
  import opened Typify
  import opened TypifyRuns
  import Joins

  // ---- one column ----

  /** `std::all_of` over the column with the lambda of one pass. */
  method AllOf(column: array<Typed>, pass: Kind, s: Settings, blank0: bool, prec0: nat, ghost contents: seq<Content>)
    returns (all: bool, blank: bool, prec: nat)
    requires TaskOk(contents, Task(column[..], pass, 0, blank0, prec0, false), s)
    modifies column
    ensures all ==> TaskOk(contents, Task(column[..], pass, column.Length, blank, prec, false), s)
    ensures !all ==> TaskOk(contents, Task(column[..], NextPass(pass), 0, blank, prec, false), s) && pass != Plain
  {
    hide Check, CellOk, Position, FoundOk, CellsOk, TaskOk, CellChecked, NextPass;
    blank, prec := blank0, prec0;
    var row := 0;
    while row < column.Length
      invariant row <= column.Length && TaskOk(contents, Task(column[..], pass, row, blank, prec, false), s)
    {
      ghost var t := Task(column[..], pass, row, blank, prec, false);
      SameLength(contents, t, s);
      CheckHere(contents, t, s);
      var v := Check(pass, column[row], s);
      AfterOk(contents, t, v, s);
      NotOkNotPlain(contents, v, pass, row, s);
      column[row] := v.cell;
      blank := blank || (s.wantBlanks && v.isNull);
      if pass == Number && s.wantPrecisions && v.ok && !v.isNull && prec < v.cell.prec {
        prec := v.cell.prec;
      }
      assert column[..] == t.cells[row := v.cell];
      assert After(t, v, s) == Task(column[..], if v.ok then pass else NextPass(pass),
          if v.ok then row + 1 else 0, blank, prec, false);
      if !v.ok {
        return false, blank, prec;
      }
      row := row + 1;
    }
    return true, blank, prec;
  }

  lemma {:induction false} SameLength(contents: seq<Content>, t: Task, s: Settings)
    requires TaskOk(contents, t, s)
    ensures |t.cells| == |contents|
  {
    hide CellOk, Position, FoundOk;
  }

  lemma {:induction false} CheckHere(contents: seq<Content>, t: Task, s: Settings)
    requires TaskOk(contents, t, s) && t.row < |contents|
    ensures |t.cells| == |contents| && CellChecked(contents, Check(t.pass, t.cells[t.row], s), t.pass, t.row, s)
  {
    hide CellOk, Position, FoundOk, Check;
    CheckCell(contents, t.cells[t.row], t.pass, t.row, s);
  }

  lemma {:induction false} NotOkNotPlain(contents: seq<Content>, v: Verdict, pass: Kind, i: nat, s: Settings)
    requires i < |contents| && CellChecked(contents, v, pass, i, s)
    ensures !v.ok ==> pass != Plain
  {
    hide CellOk, Passes;
    if !v.ok { PlainPasses(pass, contents, i, s); }
  }

  /** What is returned: with --no-inference every column is text. */
  function Returned(kind: Kind, s: Settings): Kind { if s.noInference then Plain else kind }

  /** One column: pass after pass until one accepts every cell. */
  method TypifyColumn(column: array<Typed>, s: Settings, ghost contents: seq<Content>)
    returns (kind: Kind, blank: bool, prec: nat)
    requires column[..] == Start(contents).cells
    modifies column
    ensures Found(contents, kind, blank, prec, s)
  {
    hide CellOk, Position, FoundOk, CellsOk, TaskOk, Found;
    StartOk(contents, s);
    kind, blank, prec := Boolean, false, 0;
    assert Start(contents) == Task(column[..], kind, 0, blank, prec, false);
    while true
      invariant TaskOk(contents, Task(column[..], kind, 0, blank, prec, false), s)
      decreases Order(Plain) - Order(kind)
    {
      var all;
      all, blank, prec := AllOf(column, kind, s, blank, prec, contents);
      if all {
        EndFound(contents, Task(column[..], kind, column.Length, blank, prec, false), s);
        return;
      }
      kind := NextPass(kind);
    }
  }

  lemma {:induction false} EndFound(contents: seq<Content>, t: Task, s: Settings)
    requires TaskOk(contents, t, s) && t.row == |t.cells|
    ensures Found(contents, t.pass, t.blank, t.prec, s)
  {
    hide CellOk, Position, FoundOk;
    FinishedFound(contents, t.(finished := true), s);
  }

  /** Without inference only a column of nulls alone is not text before it is made text. */
  lemma {:induction false} WithoutInference(contents: seq<Content>, kind: Kind, s: Settings)
    requires TypeIs(kind, contents, s) && s.noInference
    ensures kind == Plain || (kind == Boolean && forall i :: 0 <= i < |contents| ==> Nullish(contents[i], s))
    ensures Returned(kind, s) == Plain && forall t: Settings :: !t.noInference ==> Returned(kind, t) == kind
  {
    hide Nullish;
    if kind != Plain {
      forall i | 0 <= i < |contents|
        ensures Nullish(contents[i], s)
      {
        assert Passes(kind, contents, i, s);
      }
      assert AllPass(Boolean, contents, s);
    }
  }

  // ---- all columns ----

  /** Where the task of a column stands: its pass and its row. */
  datatype Place = Place(pass: Kind, row: nat)

  /** What the tasks share: the table and the vectors `types`, `blanks` and `precisions`, written by column
      index; a type not yet found is `unknown_t`. Each task has its own place. */
  datatype Shared = Shared(table: seq<seq<Typed>>, types: seq<Option<Kind>>, blanks: seq<bool>, precisions: seq<nat>,
                           places: seq<Place>)

  predicate Sized(w: Shared) {
    |w.table| == |w.types| == |w.blanks| == |w.precisions| == |w.places|
  }

  /** What column `c` is in the shared state. */
  function View(w: Shared, c: nat): Task
    requires Sized(w) && c < |w.table|
  {
    Task(w.table[c], w.places[c].pass, w.places[c].row, w.blanks[c], w.precisions[c], w.types[c].Some?)
  }

  ghost predicate WorldOk(contents: seq<seq<Content>>, w: Shared, s: Settings) {
    && Sized(w) && |w.table| == |contents|
    && (forall c :: 0 <= c < |w.table| ==> TaskOk(contents[c], View(w, c), s) && w.places[c].row <= |w.table[c]|)
    && (forall c :: 0 <= c < |w.table| ==> w.types[c].Some? ==> w.types[c].value == w.places[c].pass)
  }

  /** One call of a pass's lambda for column `c`, or the end of its pass: it reads the entries of the column and
      writes them. */
  function StepColumn(w: Shared, c: nat, s: Settings): (r: Shared)
    requires Sized(w) && c < |w.table| && w.places[c].row <= |w.table[c]|
    ensures Sized(r) && |r.table| == |w.table|
  {
    if w.types[c].Some? then w
    else
      var (pass, row) := (w.places[c].pass, w.places[c].row);
      if row == |w.table[c]| then w.(types := w.types[c := Some(pass)])
      else
        var v := Check(pass, w.table[c][row], s);
        Shared(
          w.table[c := w.table[c][row := v.cell]], w.types, w.blanks[c := w.blanks[c] || (s.wantBlanks && v.isNull)],
          w.precisions[c := if pass == Number && s.wantPrecisions && v.ok && !v.isNull
                            then Max(w.precisions[c], v.cell.prec) else w.precisions[c]],
          w.places[c := if v.ok then Place(pass, row + 1) else Place(NextPass(pass), 0)])
  }

  /** A step of one column is a step of its task and leaves every other column as it was. */
  lemma {:induction false} StepColumnIs(w: Shared, c: nat, d: nat, s: Settings)
    requires Sized(w) && c < |w.table| && d < |w.table| && w.places[c].row <= |w.table[c]|
    ensures View(StepColumn(w, c, s), d) == if d == c then Step(View(w, c), s) else View(w, d)
    ensures d != c ==> StepColumn(w, c, s).types[d] == w.types[d]
  {
    hide Check;
  }

  lemma {:induction false} StepType(w: Shared, w': Shared, c: nat, s: Settings)
    requires Sized(w) && Sized(w') && c < |w.table| && c < |w'.table| && w.places[c].row <= |w.table[c]|
    requires View(w, c) == View(w', c) && w.types[c] == w'.types[c]
    ensures StepColumn(w, c, s).types[c] == StepColumn(w', c, s).types[c]
  {
    hide Check;
  }

  lemma {:induction false} SameEntries(w: Shared, w': Shared)
    requires Sized(w) && Sized(w') && |w.table| == |w'.table|
    requires forall c :: 0 <= c < |w.table| ==> View(w, c) == View(w', c) && w.types[c] == w'.types[c]
    ensures w == w'
  {
    forall c | 0 <= c < |w.table|
      ensures w.table[c] == w'.table[c] && w.blanks[c] == w'.blanks[c] && w.precisions[c] == w'.precisions[c]
        && w.places[c] == w'.places[c] && w.types[c] == w'.types[c]
    {
      assert View(w, c) == View(w', c);
    }
  }

  /** The steps of two columns commute. */
  lemma {:induction false} StepsCommute(w: Shared, c: nat, d: nat, s: Settings)
    requires Sized(w) && c < |w.table| && d < |w.table| && c != d
    requires w.places[c].row <= |w.table[c]| && w.places[d].row <= |w.table[d]|
    ensures var x, y := StepColumn(w, c, s), StepColumn(w, d, s);
      && x.places[d].row <= |x.table[d]| && y.places[c].row <= |y.table[c]|
      && StepColumn(x, d, s) == StepColumn(y, c, s)
  {
    var x, y := StepColumn(w, c, s), StepColumn(w, d, s);
    StepColumnIs(w, c, d, s);
    StepColumnIs(w, d, c, s);
    assert View(x, d) == View(w, d) && View(y, c) == View(w, c);
    hide Step;
    StepType(w, x, d, s);
    StepType(w, y, c, s);
    hide StepColumn;
    var xd, yc := StepColumn(x, d, s), StepColumn(y, c, s);
    forall e | 0 <= e < |w.table|
      ensures View(xd, e) == View(yc, e) && xd.types[e] == yc.types[e]
    {
      StepColumnIs(w, c, e, s);
      StepColumnIs(w, d, e, s);
      StepColumnIs(x, d, e, s);
      StepColumnIs(y, c, e, s);
    }
    SameEntries(xd, yc);
  }

  lemma {:induction false} StepInside(t: Task, s: Settings)
    requires t.row <= |t.cells|
    ensures Step(t, s).row <= |Step(t, s).cells|
  {
    hide Check;
  }

  /** Any column makes a step, again and again. */
  ghost function Run(contents: seq<seq<Content>>, w: Shared, schedule: seq<nat>, s: Settings): (r: Shared)
    requires WorldOk(contents, w, s)
    ensures WorldOk(contents, r, s)
    decreases |schedule|
  {
    if schedule == [] then w
    else
      var c := schedule[0];
      if c < |w.table| then
        WorldKept(contents, w, c, s);
        Run(contents, StepColumn(w, c, s), schedule[1..], s)
      else Run(contents, w, schedule[1..], s)
  }

  lemma {:induction false} WorldKept(contents: seq<seq<Content>>, w: Shared, c: nat, s: Settings)
    requires WorldOk(contents, w, s) && c < |w.table|
    ensures WorldOk(contents, StepColumn(w, c, s), s)
  {
    var r := StepColumn(w, c, s);
    StepKeeps(contents[c], View(w, c), s);
    StepInside(View(w, c), s);
    hide TaskOk, Step;
    forall d | 0 <= d < |w.table|
      ensures TaskOk(contents[d], View(r, d), s) && r.places[d].row <= |r.table[d]|
    {
      StepColumnIs(w, c, d, s);
    }
  }

  /** The state before any task has run. */
  function Begun(contents: seq<seq<Content>>): Shared {
    var n := |contents|;
    Shared(seq(n, c requires 0 <= c < n => Start(contents[c]).cells), seq(n, c => None), seq(n, c => false),
           seq(n, c => 0), seq(n, c => Place(Boolean, 0)))
  }

  lemma {:induction false} BegunOk(contents: seq<seq<Content>>, s: Settings)
    ensures WorldOk(contents, Begun(contents), s)
  {
    var w := Begun(contents);
    hide TaskOk;
    forall c | 0 <= c < |contents|
      ensures TaskOk(contents[c], View(w, c), s)
    {
      StartOk(contents[c], s);
      assert View(w, c) == Start(contents[c]);
    }
  }

  /** Whatever the interleaving, the entries of a column whose type is written are what the column determines. */
  lemma {:induction false} AnyInterleaving(contents: seq<seq<Content>>, schedule: seq<nat>, c: nat, s: Settings)
    requires c < |contents|
    ensures var w := Begun(contents);
      && WorldOk(contents, w, s)
      && var r := Run(contents, w, schedule, s);
         && |r.types| == |contents|
         && (r.types[c].Some? ==> Found(contents[c], r.types[c].value, r.blanks[c], r.precisions[c], s))
  {
    BegunOk(contents, s);
    var r := Run(contents, Begun(contents), schedule, s);
    hide TaskOk, Run, Found, Begun;
    if r.types[c].Some? { FinishedFound(contents[c], View(r, c), s); }
  }

  /** Two runs that find something find the same. */
  lemma {:induction false} FoundUnique(contents: seq<Content>, s: Settings, k: Kind, b: bool, p: nat, k': Kind,
      b': bool, p': nat)
    requires Found(contents, k, b, p, s) && Found(contents, k', b', p', s)
    ensures k == k' && b == b' && (k == Number && s.wantPrecisions ==> p == p')
  {
    hide TypeIs, HasNull;
    TypeUnique(k, k', contents, s);
  }

  /** How much a task has still to do. */
  function Remaining(t: Task): nat
    requires t.row <= |t.cells|
  {
    if t.finished then 0 else (5 - Order(t.pass)) * (|t.cells| + 1) + (|t.cells| - t.row) + 1
  }

  lemma {:induction false} AfterProgress(t: Task, v: Verdict, s: Settings)
    requires t.row < |t.cells| && !t.finished && (!v.ok ==> t.pass != Plain)
    ensures After(t, v, s).row <= |After(t, v, s).cells| && Remaining(After(t, v, s)) < Remaining(t)
  {
    hide NewPrecision;
    if !v.ok { OnePassLess(Order(t.pass), |t.cells| + 1); }
  }

  /** Every step of an unfinished task comes nearer to the end. */
  lemma {:induction false} StepProgress(contents: seq<Content>, t: Task, s: Settings)
    requires TaskOk(contents, t, s) && !t.finished && t.row <= |t.cells|
    ensures Step(t, s).row <= |Step(t, s).cells| && Remaining(Step(t, s)) < Remaining(t)
  {
    if t.row < |t.cells| {
      SameLength(contents, t, s);
      CheckHere(contents, t, s);
      var v := Check(t.pass, t.cells[t.row], s);
      hide Check, TaskOk, CellChecked, After, Remaining;
      NotOkNotPlain(contents, v, t.pass, t.row, s);
      AfterProgress(t, v, s);
    } else {
      hide TaskOk, Remaining, Check;
      EndProgress(t);
    }
  }

  lemma {:induction false} EndProgress(t: Task)
    requires t.row == |t.cells| && !t.finished
    ensures Remaining(t.(finished := true)) < Remaining(t)
  {
    assert Order(t.pass) <= 5;
    hide Order;
    Nonnegative(5 - Order(t.pass), |t.cells| + 1);
  }

  lemma {:induction false} Nonnegative(o: nat, n: nat)
    ensures o * n >= 0
  {
  }

  lemma {:induction false} OnePassLess(o: nat, n: nat)
    requires o < 5
    ensures (5 - o) * n == (5 - (o + 1)) * n + n
  {
  }

  // ---- complete runs ----

  /** How often column `c` makes a step. */
  function Turns(schedule: seq<nat>, c: nat): nat {
    if schedule == [] then 0 else (if schedule[0] == c then 1 else 0) + Turns(schedule[1..], c)
  }

  /** `n` steps of one task. */
  function Steps(t: Task, n: nat, s: Settings): Task
    requires t.row <= |t.cells|
    decreases n
  {
    if n == 0 then t
    else
      StepInside(t, s);
      Steps(Step(t, s), n - 1, s)
  }

  /** What a schedule does to a column is what its own turns do to its task alone. */
  lemma {:induction false} ColumnAlone(contents: seq<seq<Content>>, w: Shared, schedule: seq<nat>, c: nat, s: Settings)
    requires WorldOk(contents, w, s) && c < |contents|
    ensures View(Run(contents, w, schedule, s), c) == Steps(View(w, c), Turns(schedule, c), s)
    decreases |schedule|
  {
    hide TaskOk, Step;
    if schedule != [] {
      var d, rest := schedule[0], schedule[1..];
      if d < |w.table| {
        WorldKept(contents, w, d, s);
        StepColumnIs(w, d, c, s);
        ColumnAlone(contents, StepColumn(w, d, s), rest, c, s);
      } else {
        ColumnAlone(contents, w, rest, c, s);
      }
    }
  }

  lemma {:induction false} FinishedStays(t: Task, n: nat, s: Settings)
    requires t.row <= |t.cells| && t.finished
    ensures Steps(t, n, s) == t
  {
    if n > 0 { FinishedStays(t, n - 1, s); }
  }

  /** With as many steps as remain, or more, a task ends, and always in the same way. */
  lemma {:induction false} StepsEnd(contents: seq<Content>, t: Task, n: nat, m: nat, s: Settings)
    requires TaskOk(contents, t, s) && t.row <= |t.cells| && n >= Remaining(t) && m >= Remaining(t)
    ensures Steps(t, n, s).finished && Steps(t, n, s) == Steps(t, m, s)
    decreases n
  {
    hide TaskOk, Step;
    if t.finished {
      FinishedStays(t, n, s);
      FinishedStays(t, m, s);
    } else {
      StepProgress(contents, t, s);
      StepKeeps(contents, t, s);
      StepsEnd(contents, Step(t, s), n - 1, m - 1, s);
    }
  }

  /** A schedule in which every column has a turn for each of the six passes at each of its cells, and one more. */
  ghost predicate Complete(contents: seq<seq<Content>>, schedule: seq<nat>) {
    forall c :: 0 <= c < |contents| ==> Turns(schedule, c) >= 6 * (|contents[c]| + 1)
  }

  /** Every complete interleaving finds all types, and any two end in the same state. */
  lemma {:induction false} CompleteRuns(contents: seq<seq<Content>>, schedule: seq<nat>, other: seq<nat>, s: Settings)
    requires Complete(contents, schedule) && Complete(contents, other)
    ensures var w := Begun(contents);
      && WorldOk(contents, w, s)
      && var r := Run(contents, w, schedule, s);
        && r == Run(contents, w, other, s)
        && |r.types| == |contents| && forall c :: 0 <= c < |contents| ==> r.types[c].Some?
  {
    BegunOk(contents, s);
    var w := Begun(contents);
    var r, r' := Run(contents, w, schedule, s), Run(contents, w, other, s);
    hide TaskOk, Run, Begun, Steps, Turns;
    forall c | 0 <= c < |contents|
      ensures View(r, c) == View(r', c) && r.types[c].Some? && r.types[c] == r'.types[c]
    {
      ColumnAlone(contents, w, schedule, c, s);
      ColumnAlone(contents, w, other, c, s);
      BegunRemaining(contents, c);
      StepsEnd(contents[c], View(w, c), Turns(schedule, c), Turns(other, c), s);
    }
    SameEntries(r, r');
  }

  lemma {:induction false} BegunRemaining(contents: seq<seq<Content>>, c: nat)
    requires c < |contents|
    ensures var t := View(Begun(contents), c); t.row <= |t.cells| && Remaining(t) == 6 * (|contents[c]| + 1)
  {
  }

  // ---- joined columns ----

  /** The comparison reads the typed values of the two cells. */
  predicate UsesNative(m: Mode, a: Comparators.Cell, b: Comparators.Cell) {
    Chosen(m) == Native || (Chosen(m) == NullsThenNative && !a.isNull && !b.isNull)
  }

  /** With the blanks of the two columns aligned, the typed comparison never gets a null of either table. */
  lemma {:induction false} NativeNeverNull(
    xs: seq<Content>, ys: seq<Content>, kx: Kind, blankX: bool, px: nat, ky: Kind, blankY: bool, py: nat,
    s: Settings, fold: char -> char, i: nat, j: nat, a: Comparators.Cell, b: Comparators.Cell)
    requires Found(xs, kx, blankX, px, s) && Found(ys, ky, blankY, py, s) && s.wantBlanks && !s.blanks
    requires i < |xs| && j < |ys| && a.isNull == Nullish(xs[i], s) && b.isNull == Nullish(ys[j], s)
    ensures var modes := Joins.CommonMode(Joins.Column(Returned(kx, s), blankX), Joins.Column(Returned(ky, s), blankY),
                                          s.noInference, s.blanks, fold);
      modes != [] && UsesNative(modes[0], a, b) ==> !a.isNull && !b.isNull
  {
    hide TypeIs, Nullish;
  }
}
