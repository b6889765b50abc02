/**
 Column typing (suite/include/cli.h, `typify`) with the cached predicates of a cell
 (suite/include/reader-bridge-impl.hpp): six passes over a column, each stopped by the first cell that
 does not fit, over cells whose cached type the passes change.
 */
module Typify {
  import opened Text
  import opened Numeral
  import Precision
  import opened Comparators

  /** The text of a cell, trimmed and in upper case, and what the other parsers say of it. */
  datatype Content = Content(text: string, upper: string, timedelta: bool, datetime: bool, date: bool)

  datatype DateTimeType = UnknownType | NoType | DateType | DatetimeType

  /** A cell with its caches; no type is `UNKNOWN`. */
  datatype Typed = Typed(content: Content, dtype: Option<DataType>, value: Option<real>, prec: nat, dt: DateTimeType)

  /** The options: --blanks, --no-inference, the words of --null-value, --no-leading-zeroes, whether the
      date and datetime formats are empty, and what the caller wants to know. */
  datatype Settings = Settings(
    blanks: bool, noInference: bool, nullValues: set<string>, noLeadingZeroes: bool,
    noDateFormat: bool, noDatetimeFormat: bool, wantBlanks: bool, wantPrecisions: bool)

  // ---- a cell ----

  predicate IsNoneWord(s: string) { s in {"NA", "N/A", "NONE", "NULL", ".", ","} }

  predicate IsBoolWord(s: string) { s in {"T", "F", "TRUE", "FALSE", "\"1\"", "\"0\"", "Y", "N", "YES", "NO"} }

  predicate IsFalseWord(s: string) { s in {"F", "FALSE", "\"0\"", "N", "NO"} }

  predicate IsInfNan(s: string) { s in {"NAN", "INF", "INFINITY", "+INF", "-INF", "+INFINITY", "-INFINITY"} }

  predicate IsNumeric(t: DataType) { t != CsvNull && t != CsvString }

  /** `get_value` in the "C" locale; infinities and NaN have no value here. */
  function Detected(c: Content, s: Settings): Reading {
    var r := Read(c.text);
    var first := SkipChar(c.text, ' ', 0);
    if IsNumeric(r.dtype) then
      if s.noLeadingZeroes && first < |c.text| && c.text[first] == '0' then Reading(CsvString, r.value) else r
    else if r.dtype == CsvString && IsInfNan(c.upper) then Reading(CsvDouble, None)
    else r
  }

  function DetectedPrecision(c: Content, s: Settings): nat {
    var r := Read(c.text);
    if s.wantPrecisions && r.dtype == CsvDouble && r.value.Some? then Precision.Precision(r.value.value) else 0
  }

  function Fresh(c: Content): Typed { Typed(c, None, None, 0, UnknownType) }

  function GetValue(e: Typed, s: Settings): (r: Typed)
    ensures r.dtype.Some? && r.content == e.content && r.dt == e.dt
  {
    if e.dtype.Some? then e
    else
      var d := Detected(e.content, s);
      e.(dtype := Some(d.dtype), value := d.value, prec := DetectedPrecision(e.content, s))
  }

  /** `is_null_or_null_value`, once the type is known. */
  predicate IsNull(e: Typed, s: Settings)
    requires e.dtype.Some?
  {
    || e.dtype.value == CsvNull
    || (e.dtype.value == CsvString && (IsNoneWord(e.content.upper) || e.content.upper in s.nullValues))
  }

  predicate IsZeroOrOne(v: Option<real>) { v == Some(0.0) || v == Some(1.0) }

  /** `is_boolean`: a boolean word is from now on a small integer. */
  function IsBoolean(e: Typed): (r: (Typed, bool))
    requires e.dtype.Some?
    ensures r.0.content == e.content && r.0.dt == e.dt && r.0.dtype.Some?
  {
    if e.dtype.value == CsvInt8 && IsZeroOrOne(e.value) then (e, true)
    else if e.dtype.value == CsvString && IsBoolWord(e.content.upper) then
      (e.(dtype := Some(CsvInt8), value := Some(if IsFalseWord(e.content.upper) then 0.0 else 1.0)), true)
    else (e, false)
  }

  /** `datetime` and `date`: parsed on the first call, or whenever there is a format to try. */
  function IsDatetime(e: Typed, s: Settings): (Typed, bool) {
    if e.dt == UnknownType || !s.noDatetimeFormat
    then (e.(dt := if e.content.datetime then DatetimeType else NoType), e.content.datetime)
    else (e, e.dt == DatetimeType)
  }

  function IsDate(e: Typed, s: Settings): (Typed, bool) {
    if e.dt == UnknownType || !s.noDateFormat
    then (e.(dt := if e.content.date then DateType else NoType), e.content.date)
    else (e, e.dt == DateType)
  }

  datatype Verdict = Verdict(cell: Typed, isNull: bool, ok: bool)

  /** The test of one cell in the pass for a type. */
  function Check(kind: Kind, e: Typed, s: Settings): Verdict {
    var e1 := GetValue(e, s);
    var n := IsNull(e1, s) && !s.blanks;
    if n || kind == Plain then Verdict(e1, n, true)
    else if s.noInference then Verdict(e1, n, false)
    else
      match kind
      case Boolean => var r := IsBoolean(e1); Verdict(r.0, n, r.1)
      case Timedelta => Verdict(e1, n, e1.content.timedelta)
      case Datetime => var r := IsDatetime(e1, s); Verdict(r.0, n, r.1)
      case Day => var r := IsDate(e1, s); Verdict(r.0, n, r.1)
      case Number => Verdict(e1, n, IsNumeric(e1.dtype.value))
  }

  // ---- a column task, one cell at a time ----

  function Order(k: Kind): nat {
    match k
    case Boolean => 0
    case Timedelta => 1
    case Datetime => 2
    case Day => 3
    case Number => 4
    case Plain => 5
  }

  function NextPass(k: Kind): (r: Kind)
    ensures k != Plain ==> Order(r) == Order(k) + 1
  {
    match k
    case Boolean => Timedelta
    case Timedelta => Datetime
    case Datetime => Day
    case Day => Number
    case Number => Plain
    case Plain => Plain
  }

  datatype Task = Task(cells: seq<Typed>, pass: Kind, row: nat, blank: bool, prec: nat, finished: bool)

  function Start(contents: seq<Content>): Task {
    Task(seq(|contents|, i requires 0 <= i < |contents| => Fresh(contents[i])), Boolean, 0, false, 0, false)
  }

  function NewPrecision(t: Task, v: Verdict, s: Settings): nat {
    if t.pass == Number && s.wantPrecisions && v.ok && !v.isNull then Max(t.prec, v.cell.prec) else t.prec
  }

  /** A column task after the verdict on the cell at hand: on to the next cell, or to the next pass. */
  function After(t: Task, v: Verdict, s: Settings): Task
    requires t.row < |t.cells|
  {
    t.(cells := t.cells[t.row := v.cell], blank := t.blank || (s.wantBlanks && v.isNull),
       prec := NewPrecision(t, v, s),
       row := if v.ok then t.row + 1 else 0, pass := if v.ok then t.pass else NextPass(t.pass))
  }

  /** One call of a pass's lambda, or the end of the pass. */
  function Step(t: Task, s: Settings): Task
    requires t.row <= |t.cells|
  {
    if t.finished then t
    else if t.row == |t.cells| then t.(finished := true)
    else After(t, Check(t.pass, t.cells[t.row], s), s)
  }

  // ---- what the passes decide, without caches ----

  /** The null verdict of a cell. */
  predicate Nullish(c: Content, s: Settings) { !s.blanks && IsNull(GetValue(Fresh(c), s), s) }

  predicate IsWord(c: Content, s: Settings) { Detected(c, s).dtype == CsvString && IsBoolWord(c.upper) }

  predicate IsFlag(c: Content, s: Settings) {
    IsWord(c, s) || (Detected(c, s).dtype == CsvInt8 && IsZeroOrOne(Detected(c, s).value))
  }

  /** A cell that the passes look into. */
  predicate Active(c: Content, s: Settings) { !Nullish(c, s) && !s.noInference }

  /** The boolean or the datetime pass accepts the cell. */
  predicate Accepts(k: Kind, c: Content, s: Settings) {
    Nullish(c, s) || (!s.noInference && if k == Boolean then IsFlag(c, s) else c.datetime)
  }

  /** The boolean or the datetime pass reaches cell `i`. */
  ghost predicate Reached(k: Kind, contents: seq<Content>, i: nat, s: Settings)
    requires i <= |contents|
  {
    forall j :: 0 <= j < i ==> Accepts(k, contents[j], s)
  }

  ghost predicate Suits(k: Kind, contents: seq<Content>, i: nat, s: Settings)
    requires i < |contents|
  {
    var c := contents[i];
    match k
    case Boolean => IsFlag(c, s)
    case Timedelta => c.timedelta
    case Datetime => c.datetime
    case Day => c.date && !(s.noDateFormat && Reached(Datetime, contents, i, s))
    case Number => IsNumeric(Detected(c, s).dtype) || (IsWord(c, s) && Reached(Boolean, contents, i, s))
    case Plain => true
  }

  /** The pass for `k` accepts cell `i`. A date is only parsed if the datetime pass has not come so far or
      there is a date format; a boolean word is a number once the boolean pass has come so far. */
  ghost predicate Passes(k: Kind, contents: seq<Content>, i: nat, s: Settings)
    requires i < |contents|
  {
    Nullish(contents[i], s) || k == Plain || (!s.noInference && Suits(k, contents, i, s))
  }

  ghost predicate AllPass(k: Kind, contents: seq<Content>, s: Settings) {
    forall i :: 0 <= i < |contents| ==> Passes(k, contents, i, s)
  }

  /** The type found: the first pass that accepts every cell. */
  ghost predicate TypeIs(k: Kind, contents: seq<Content>, s: Settings) {
    AllPass(k, contents, s) && forall j :: Order(j) < Order(k) ==> !AllPass(j, contents, s)
  }

  /** Only one type is found. */
  lemma {:induction false} TypeUnique(j: Kind, k: Kind, contents: seq<Content>, s: Settings)
    requires TypeIs(j, contents, s) && TypeIs(k, contents, s)
    ensures j == k
  {
    hide AllPass;
  }

  ghost predicate HasNull(contents: seq<Content>, s: Settings) {
    exists i :: 0 <= i < |contents| && Nullish(contents[i], s)
  }

  /** The most decimals of the first `n` cells that have a value. */
  function DecimalsUpTo(contents: seq<Content>, n: nat, s: Settings): nat
    requires n <= |contents|
  {
    if n == 0 then 0
    else
      var c := contents[n - 1];
      var most := DecimalsUpTo(contents, n - 1, s);
      if Nullish(c, s) then most else Max(most, DetectedPrecision(c, s))
  }
}
