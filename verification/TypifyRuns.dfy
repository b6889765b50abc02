/**
 Column typing as a machine that looks at one cell at a time. The invariant says, for every cell, what its
 caches hold at the current pass and row: whether `is_boolean` has made an integer of it and whether the
 datetime pass has been there. Every step keeps it, and a finished column has found what is determined by
 the contents of its cells: its type, whether it has a null, and its greatest number of decimals. All of
 this is stated without caches, in terms of `Passes`.
 */
module TypifyRuns {
  import opened Text
  import opened Numeral
  import opened Comparators
  import opened Typify

  // ---- a cell between two passes ----

  /** What the caches of a cell hold: a type only if it was looked at, that of a small integer if it is a
      boolean word that `is_boolean` has seen, and a date type if `datetime` has seen it. After the date
      pass has seen it too (`dateSeen`), nothing more is said about the latter. */
  predicate CacheOk(e: Typed, c: Content, s: Settings, retagged: bool, datetimeSeen: bool, dateSeen: bool) {
    && e.content == c
    && (if retagged then e.dtype == Some(CsvInt8)
        else e.dtype.None? || (e.dtype == Some(Detected(c, s).dtype) && e.value == Detected(c, s).value))
    && (e.dtype.Some? ==> e.prec == DetectedPrecision(c, s))
    && (!dateSeen ==> (e.dt == UnknownType <==> !datetimeSeen) && e.dt != DateType)
  }

  lemma {:induction false} FreshOk(c: Content, s: Settings)
    ensures CacheOk(Fresh(c), c, s, false, false, false)
  {
  }

  /** The null verdict does not depend on what the passes did to the cell. */
  lemma {:induction false} VerdictStable(e: Typed, c: Content, s: Settings, retagged: bool, dtSeen: bool,
      dSeen: bool, k: Kind)
    requires CacheOk(e, c, s, retagged, dtSeen, dSeen) && (retagged ==> Active(c, s))
    ensures Check(k, e, s).isNull == Nullish(c, s)
    ensures CacheOk(GetValue(e, s), c, s, retagged, dtSeen, dSeen)
  {
    hide Detected, IsNoneWord, IsBoolWord, DetectedPrecision;
  }

  /** The boolean pass: boolean words are changed, and only those. */
  lemma {:induction false} CheckBoolean(e: Typed, c: Content, s: Settings)
    requires CacheOk(e, c, s, false, false, false)
    ensures var v := Check(Boolean, e, s);
      v.ok == Accepts(Boolean, c, s) && CacheOk(v.cell, c, s, Active(c, s) && IsWord(c, s), false, false)
  {
    VerdictStable(e, c, s, false, false, false, Boolean);
    hide Detected, IsNoneWord, IsBoolWord, IsFalseWord, DetectedPrecision;
  }

  lemma {:induction false} CheckTimedelta(e: Typed, c: Content, s: Settings, retagged: bool)
    requires CacheOk(e, c, s, retagged, false, false) && (retagged ==> Active(c, s))
    ensures var v := Check(Timedelta, e, s);
      v.ok == (Nullish(c, s) || (!s.noInference && c.timedelta)) && CacheOk(v.cell, c, s, retagged, false, false)
  {
    VerdictStable(e, c, s, retagged, false, false, Timedelta);
    hide Detected, IsNull, Nullish, DetectedPrecision;
  }

  lemma {:induction false} CheckDatetime(e: Typed, c: Content, s: Settings, retagged: bool)
    requires CacheOk(e, c, s, retagged, false, false) && (retagged ==> Active(c, s))
    ensures var v := Check(Datetime, e, s);
      v.ok == Accepts(Datetime, c, s) && CacheOk(v.cell, c, s, retagged, Active(c, s), false)
  {
    VerdictStable(e, c, s, retagged, false, false, Datetime);
    hide Detected, IsNull, Nullish, DetectedPrecision;
  }

  lemma {:induction false} CheckDate(e: Typed, c: Content, s: Settings, retagged: bool, dtSeen: bool)
    requires CacheOk(e, c, s, retagged, dtSeen && Active(c, s), false) && (retagged ==> Active(c, s))
    ensures var v := Check(Day, e, s);
      && v.ok == (Nullish(c, s) || (!s.noInference && c.date && !(s.noDateFormat && dtSeen)))
      && CacheOk(v.cell, c, s, retagged, dtSeen && Active(c, s), true)
  {
    VerdictStable(e, c, s, retagged, dtSeen && Active(c, s), false, Day);
    hide Detected, IsNull, Nullish, DetectedPrecision;
  }

  lemma {:induction false} CheckNumber(e: Typed, c: Content, s: Settings, retagged: bool, dtSeen: bool)
    requires CacheOk(e, c, s, retagged, dtSeen, true) && (retagged ==> Active(c, s) && IsWord(c, s))
    ensures var v := Check(Number, e, s);
      && v.ok == (Nullish(c, s) || (!s.noInference && (IsNumeric(Detected(c, s).dtype) || retagged)))
      && CacheOk(v.cell, c, s, retagged, dtSeen, true) && v.cell.prec == DetectedPrecision(c, s)
  {
    VerdictStable(e, c, s, retagged, dtSeen, true, Number);
    hide Detected, IsNull, Nullish, DetectedPrecision, IsBoolWord;
  }

  lemma {:induction false} CheckPlain(e: Typed, c: Content, s: Settings, retagged: bool, dtSeen: bool)
    requires CacheOk(e, c, s, retagged, dtSeen, true) && (retagged ==> Active(c, s))
    ensures var v := Check(Plain, e, s); v.ok && CacheOk(v.cell, c, s, retagged, dtSeen, true)
  {
    VerdictStable(e, c, s, retagged, dtSeen, true, Plain);
    hide Detected, IsNull, Nullish, DetectedPrecision;
  }

  // ---- a task between two steps ----

  /** The pass for `k` has looked at cell `i`. */
  ghost predicate Visited(k: Kind, contents: seq<Content>, pass: Kind, row: nat, i: nat, s: Settings)
    requires i < |contents|
  {
    if Order(pass) > Order(k) then Reached(k, contents, i, s) else pass == k && i < row
  }

  ghost predicate Retagged(contents: seq<Content>, pass: Kind, row: nat, i: nat, s: Settings)
    requires i < |contents|
  {
    Active(contents[i], s) && IsWord(contents[i], s) && Visited(Boolean, contents, pass, row, i, s)
  }

  ghost predicate CellOk(contents: seq<Content>, e: Typed, pass: Kind, row: nat, i: nat, s: Settings)
    requires i < |contents|
  {
    CacheOk(e, contents[i], s, Retagged(contents, pass, row, i, s),
            Visited(Datetime, contents, pass, row, i, s) && Active(contents[i], s),
            Order(pass) > Order(Day) || (pass == Day && i < row))
  }

  /** The cells before `row` have passed, the earlier passes have failed. */
  ghost predicate Position(contents: seq<Content>, pass: Kind, row: nat, s: Settings) {
    && row <= |contents| && (forall i :: 0 <= i < row ==> Passes(pass, contents, i, s))
    && (forall k :: Order(k) < Order(pass) ==> !AllPass(k, contents, s))
  }

  ghost predicate FoundOk(contents: seq<Content>, pass: Kind, row: nat, blank: bool, prec: nat, s: Settings)
    requires row <= |contents|
  {
    && (blank ==> s.wantBlanks && HasNull(contents, s))
    && (s.wantBlanks ==> forall i :: 0 <= i < row ==> Nullish(contents[i], s) ==> blank)
    && (Order(pass) < Order(Number) || !s.wantPrecisions ==> prec == 0)
    && (pass == Number && s.wantPrecisions ==> prec == DecimalsUpTo(contents, row, s))
  }

  ghost predicate CellsOk(contents: seq<Content>, cells: seq<Typed>, pass: Kind, row: nat, s: Settings) {
    |cells| == |contents| && forall i :: 0 <= i < |cells| ==> CellOk(contents, cells[i], pass, row, i, s)
  }

  ghost predicate TaskOk(contents: seq<Content>, t: Task, s: Settings) {
    && Position(contents, t.pass, t.row, s) && CellsOk(contents, t.cells, t.pass, t.row, s)
    && FoundOk(contents, t.pass, t.row, t.blank, t.prec, s)
    && (t.finished ==> t.row == |contents|)
  }

  /** The verdict on cell `i`, told from the contents alone, and the caches after it. */
  ghost predicate CellChecked(contents: seq<Content>, v: Verdict, pass: Kind, i: nat, s: Settings)
    requires i < |contents|
  {
    && v.isNull == Nullish(contents[i], s) && v.ok == Passes(pass, contents, i, s)
    && CellOk(contents, v.cell, pass, i + 1, i, s)
    && (pass == Number ==> v.cell.prec == DetectedPrecision(contents[i], s))
  }

  lemma {:induction false} CellInBoolean(contents: seq<Content>, e: Typed, i: nat, s: Settings)
    requires i < |contents| && CellOk(contents, e, Boolean, i, i, s)
    ensures CellChecked(contents, Check(Boolean, e, s), Boolean, i, s)
  {
    var c := contents[i];
    hide CacheOk, Check, Detected, Nullish, IsWord, Reached, IsFlag;
    VerdictStable(e, c, s, false, false, false, Boolean);
    CheckBoolean(e, c, s);
  }

  lemma {:induction false} CellInTimedelta(contents: seq<Content>, e: Typed, i: nat, s: Settings)
    requires i < |contents| && CellOk(contents, e, Timedelta, i, i, s)
    ensures CellChecked(contents, Check(Timedelta, e, s), Timedelta, i, s)
  {
    var c := contents[i];
    hide CacheOk, Check, Detected, Nullish, IsWord, Reached, IsFlag;
    VerdictStable(e, c, s, Retagged(contents, Timedelta, i, i, s), false, false, Timedelta);
    CheckTimedelta(e, c, s, Retagged(contents, Timedelta, i, i, s));
  }

  lemma {:induction false} CellInDatetime(contents: seq<Content>, e: Typed, i: nat, s: Settings)
    requires i < |contents| && CellOk(contents, e, Datetime, i, i, s)
    ensures CellChecked(contents, Check(Datetime, e, s), Datetime, i, s)
  {
    var c := contents[i];
    hide CacheOk, Check, Detected, Nullish, IsWord, Reached, IsFlag;
    VerdictStable(e, c, s, Retagged(contents, Datetime, i, i, s), false, false, Datetime);
    CheckDatetime(e, c, s, Retagged(contents, Datetime, i, i, s));
  }

  lemma {:induction false} CellInDay(contents: seq<Content>, e: Typed, i: nat, s: Settings)
    requires i < |contents| && CellOk(contents, e, Day, i, i, s)
    ensures CellChecked(contents, Check(Day, e, s), Day, i, s)
  {
    var c := contents[i];
    hide CacheOk, Check, Detected, Nullish, IsWord, Reached, IsFlag;
    VerdictStable(e, c, s, Retagged(contents, Day, i, i, s), Reached(Datetime, contents, i, s) && Active(c, s),
        false, Day);
    CheckDate(e, c, s, Retagged(contents, Day, i, i, s), Reached(Datetime, contents, i, s));
  }

  lemma {:induction false} CellInNumber(contents: seq<Content>, e: Typed, i: nat, s: Settings)
    requires i < |contents| && CellOk(contents, e, Number, i, i, s)
    ensures CellChecked(contents, Check(Number, e, s), Number, i, s)
  {
    var c := contents[i];
    hide CacheOk, Check, Detected, Nullish, IsWord, Reached, IsFlag;
    VerdictStable(e, c, s, Retagged(contents, Number, i, i, s), Reached(Datetime, contents, i, s) && Active(c,
        s), true, Number);
    CheckNumber(e, c, s, Retagged(contents, Number, i, i, s), Reached(Datetime, contents, i, s) && Active(c, s));
  }

  lemma {:induction false} CellInPlain(contents: seq<Content>, e: Typed, i: nat, s: Settings)
    requires i < |contents| && CellOk(contents, e, Plain, i, i, s)
    ensures CellChecked(contents, Check(Plain, e, s), Plain, i, s)
  {
    var c := contents[i];
    hide CacheOk, Check, Detected, Nullish, IsWord, Reached, IsFlag;
    VerdictStable(e, c, s, Retagged(contents, Plain, i, i, s), Reached(Datetime, contents, i, s) && Active(c,
        s), true, Plain);
    CheckPlain(e, c, s, Retagged(contents, Plain, i, i, s), Reached(Datetime, contents, i, s) && Active(c, s));
  }

  lemma {:induction false} CheckCell(contents: seq<Content>, e: Typed, pass: Kind, i: nat, s: Settings)
    requires i < |contents| && CellOk(contents, e, pass, i, i, s)
    ensures CellChecked(contents, Check(pass, e, s), pass, i, s)
  {
    hide CellOk, Check, CellChecked;
    match pass {
      case Boolean => CellInBoolean(contents, e, i, s);
      case Timedelta => CellInTimedelta(contents, e, i, s);
      case Datetime => CellInDatetime(contents, e, i, s);
      case Day => CellInDay(contents, e, i, s);
      case Number => CellInNumber(contents, e, i, s);
      case Plain => CellInPlain(contents, e, i, s);
    }
  }

  lemma {:induction false} PassesAccepts(k: Kind, contents: seq<Content>, n: nat, s: Settings)
    requires n < |contents| && (k == Boolean || k == Datetime)
    ensures Passes(k, contents, n, s) == Accepts(k, contents[n], s)
  {
    hide Nullish, IsFlag;
  }

  lemma {:induction false} ReachedBy(k: Kind, contents: seq<Content>, i: nat, s: Settings)
    requires i <= |contents| && (k == Boolean || k == Datetime) && forall n :: 0 <= n < i ==> Passes(k, contents, n, s)
    ensures Reached(k, contents, i, s)
  {
    hide Passes, Accepts;
    forall n | 0 <= n < i
      ensures Accepts(k, contents[n], s)
    {
      PassesAccepts(k, contents, n, s);
    }
  }

  lemma {:induction false} ReachedUpTo(k: Kind, contents: seq<Content>, i: nat, j: nat, s: Settings)
    requires i < |contents| && j < |contents| && Reached(k, contents, i, s) && !Accepts(k, contents[i], s)
    ensures Reached(k, contents, j, s) <==> j <= i
  {
    hide Accepts;
  }

  /** What a pass has looked at when it goes on to the next cell, or stops for good at `i`. */
  lemma {:induction false} VisitedNext(k: Kind, contents: seq<Content>, pass: Kind, i: nat, j: nat, s: Settings)
    requires i < |contents| && j < |contents| && (k == Boolean || k == Datetime) && Position(contents, pass, i, s)
    ensures j != i ==> Visited(k, contents, pass, i + 1, j, s) == Visited(k, contents, pass, i, j, s)
    ensures pass != Plain && !Passes(pass, contents, i, s) ==>
      Visited(k, contents, NextPass(pass), 0, j, s) == Visited(k, contents, pass, i + 1, j, s)
  {
    if pass == k {
      ReachedBy(k, contents, i, s);
      PassesAccepts(k, contents, i, s);
      hide Passes, Accepts, Reached, AllPass;
      if !Passes(k, contents, i, s) { ReachedUpTo(k, contents, i, j, s); }
    }
  }

  /** The cells that the step does not touch. */
  lemma {:induction false} OtherCell(contents: seq<Content>, e: Typed, pass: Kind, i: nat, j: nat, s: Settings)
    requires i < |contents| && j < |contents| && j != i && Position(contents, pass, i, s)
    requires CellOk(contents, e, pass, i, j, s)
    ensures CellOk(contents, e, pass, i + 1, j, s)
  {
    VisitedNext(Boolean, contents, pass, i, j, s);
    VisitedNext(Datetime, contents, pass, i, j, s);
    hide CacheOk, Visited, Passes, AllPass, Active, IsWord;
  }

  /** A failed cell ends the pass; what is known of every cell is then told by the next pass. */
  lemma {:induction false} NextPassCell(contents: seq<Content>, e: Typed, pass: Kind, i: nat, j: nat, s: Settings)
    requires i < |contents| && j < |contents| && Position(contents, pass, i, s) && pass != Plain
    requires !Passes(pass, contents, i, s) && CellOk(contents, e, pass, i + 1, j, s)
    ensures CellOk(contents, e, NextPass(pass), 0, j, s)
  {
    VisitedNext(Boolean, contents, pass, i, j, s);
    VisitedNext(Datetime, contents, pass, i, j, s);
    hide Visited, Passes, AllPass, Active, IsWord, Detected, DetectedPrecision;
  }

  lemma {:induction false} NextCells(contents: seq<Content>, cells: seq<Typed>, v: Verdict, pass: Kind, i: nat,
      s: Settings)
    requires i < |contents| && Position(contents, pass, i, s) && CellsOk(contents, cells, pass, i, s)
    requires CellChecked(contents, v, pass, i, s)
    ensures CellsOk(contents, cells[i := v.cell], pass, i + 1, s)
    ensures !v.ok ==> pass != Plain && CellsOk(contents, cells[i := v.cell], NextPass(pass), 0, s)
  {
    var cells' := cells[i := v.cell];
    hide CellOk, Position;
    assert !v.ok ==> pass != Plain;
    forall j | 0 <= j < |cells|
      ensures CellOk(contents, cells'[j], pass, i + 1, j, s)
      ensures !v.ok ==> CellOk(contents, cells'[j], NextPass(pass), 0, j, s)
    {
      if j != i { OtherCell(contents, cells[j], pass, i, j, s); }
      if !v.ok { NextPassCell(contents, cells'[j], pass, i, j, s); }
    }
  }

  lemma {:induction false} PlainPasses(pass: Kind, contents: seq<Content>, i: nat, s: Settings)
    requires i < |contents| && !Passes(pass, contents, i, s)
    ensures pass != Plain && !AllPass(pass, contents, s)
  {
    hide Nullish, Suits;
  }

  lemma {:induction false} EarlierPass(k: Kind, pass: Kind)
    requires Order(k) < Order(NextPass(pass)) && pass != Plain
    ensures Order(k) < Order(pass) || k == pass
  {
  }

  lemma {:induction false} NextPosition(contents: seq<Content>, pass: Kind, i: nat, s: Settings)
    requires i < |contents| && Position(contents, pass, i, s)
    ensures Passes(pass, contents, i, s) ==> Position(contents, pass, i + 1, s)
    ensures !Passes(pass, contents, i, s) ==> Position(contents, NextPass(pass), 0, s)
  {
    hide Passes, AllPass, Order, NextPass;
    if !Passes(pass, contents, i, s) {
      PlainPasses(pass, contents, i, s);
      forall k | Order(k) < Order(NextPass(pass))
        ensures !AllPass(k, contents, s)
      {
        EarlierPass(k, pass);
      }
    }
  }

  lemma {:induction false} NextFound(contents: seq<Content>, t: Task, v: Verdict, s: Settings)
    requires t.row < |contents| && FoundOk(contents, t.pass, t.row, t.blank, t.prec, s)
    requires CellChecked(contents, v, t.pass, t.row, s)
    ensures var blank := t.blank || (s.wantBlanks && v.isNull);
      if v.ok then FoundOk(contents, t.pass, t.row + 1, blank, NewPrecision(t, v, s), s)
      else FoundOk(contents, NextPass(t.pass), 0, blank, NewPrecision(t, v, s), s)
  {
    hide Passes, CellOk, Nullish, DetectedPrecision;
    assert v.isNull ==> HasNull(contents, s);
    assert DecimalsUpTo(contents, 0, s) == 0;
    if !v.ok { PlainPasses(t.pass, contents, t.row, s); }
  }

  lemma {:induction false} NextOk(contents: seq<Content>, t: Task, v: Verdict, s: Settings)
    requires TaskOk(contents, t, s) && !t.finished && t.row < |contents| && CellChecked(contents, v, t.pass, t.row, s)
    ensures var r := After(t, v, s);
      && Position(contents, r.pass, r.row, s) && CellsOk(contents, r.cells, r.pass, r.row, s)
      && FoundOk(contents, r.pass, r.row, r.blank, r.prec, s)
  {
    hide CellOk, Position, FoundOk, Passes, CellsOk, NewPrecision, NextPass, Nullish, DetectedPrecision, Detected;
    NextCells(contents, t.cells, v, t.pass, t.row, s);
    NextPosition(contents, t.pass, t.row, s);
    NextFound(contents, t, v, s);
  }

  lemma {:induction false} AfterOk(contents: seq<Content>, t: Task, v: Verdict, s: Settings)
    requires TaskOk(contents, t, s) && !t.finished && t.row < |contents| && CellChecked(contents, v, t.pass, t.row, s)
    ensures TaskOk(contents, After(t, v, s), s)
  {
    NextOk(contents, t, v, s);
    hide Position, FoundOk, CellsOk, CellChecked, NewPrecision, NextPass;
  }

  /** Every step keeps the invariant. */
  lemma {:induction false} StepKeeps(contents: seq<Content>, t: Task, s: Settings)
    requires TaskOk(contents, t, s)
    ensures TaskOk(contents, Step(t, s), s)
  {
    hide Check, After, CellOk, CellChecked, Passes, AllPass;
    if !t.finished && t.row < |t.cells| {
      CheckCell(contents, t.cells[t.row], t.pass, t.row, s);
      AfterOk(contents, t, Check(t.pass, t.cells[t.row], s), s);
    }
  }

  lemma {:induction false} StartOk(contents: seq<Content>, s: Settings)
    ensures TaskOk(contents, Start(contents), s)
  {
    forall i | 0 <= i < |contents|
      ensures CellOk(contents, Start(contents).cells[i], Boolean, 0, i, s)
    {
      FreshOk(contents[i], s);
      hide CacheOk;
    }
    hide CellOk;
  }

  // ---- what a finished task has found ----

  /** The type is that of the first pass accepting all cells; the blank flag is set exactly when the column
      has a null, early exits notwithstanding; a number column has its greatest number of decimals. */
  ghost predicate Found(contents: seq<Content>, kind: Kind, blank: bool, prec: nat, s: Settings) {
    && TypeIs(kind, contents, s) && (blank <==> s.wantBlanks && HasNull(contents, s))
    && (kind == Number && s.wantPrecisions ==> prec == DecimalsUpTo(contents, |contents|, s))
  }

  lemma {:induction false} FinishedFound(contents: seq<Content>, t: Task, s: Settings)
    requires TaskOk(contents, t, s) && t.finished
    ensures Found(contents, t.pass, t.blank, t.prec, s)
  {
    hide CellsOk, Passes, Nullish;
  }
}
