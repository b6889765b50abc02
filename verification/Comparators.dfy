/**
 The column comparators (suite/include/cli-compare.h): by type and options, for sorting by several keys, and for
 searching a sorted table. Numbers are finite; a character stands for a code unit.
 */
module Comparators {

  /** How a cell is read by the typed comparisons and by the hash functions. */
  datatype Cell = Cell(
    raw: string, unquoted: string, isNull: bool, number: real, seconds: real, instant: int, day: int)

  type Row = seq<Cell>

  datatype Kind = Boolean | Number | Datetime | Day | Timedelta | Plain

  /** What the comparator of a column is made of: its type and whether it has blanks, --no-inference,
      --blanks, and the characters that comparison takes for each other (`fold` is the identity unless
      --ignore-case is given). */
  datatype Mode = Mode(kind: Kind, hasBlanks: bool, noInference: bool, blanks: bool, fold: char -> char)

  /** The comparison chosen by the constructor of `common_compare_impl`. */
  datatype Choice = Native | NullsThenNative | NullsThenText | TextOnly

  function Chosen(m: Mode): Choice {
    if !m.noInference && !m.hasBlanks then Native
    else if !m.blanks && !m.noInference && m.hasBlanks then NullsThenNative
    else if !m.blanks && m.noInference && m.hasBlanks then NullsThenText
    else TextOnly
  }

  // ---- text ----

  /** `find_first_not_of("\"")` */
  function QuotesEnd(s: string): (k: nat)
    ensures k <= |s|
  {
    if s != "" && s[0] == '\"' then 1 + QuotesEnd(s[1..]) else 0
  }

  /** One past `find_last_not_of("\"\t\r")`. */
  function KeptEnd(s: string): (k: nat)
    ensures k <= |s|
  {
    if s != "" && s[|s| - 1] in "\"\t\r" then KeptEnd(s[..|s| - 1]) else |s|
  }

  /** The part of a cell that is compared. */
  function Stripped(s: string): string {
    if QuotesEnd(s) >= KeptEnd(s) then "" else s[QuotesEnd(s)..KeptEnd(s)]
  }

  lemma {:induction false} QuotesEndIs(s: string)
    ensures forall i :: 0 <= i < QuotesEnd(s) ==> s[i] == '\"'
    ensures QuotesEnd(s) < |s| ==> s[QuotesEnd(s)] != '\"'
  {
    if s != "" && s[0] == '\"' { QuotesEndIs(s[1..]); }
  }

  lemma {:induction false} KeptEndIs(s: string)
    ensures forall i :: KeptEnd(s) <= i < |s| ==> s[i] in "\"\t\r"
    ensures KeptEnd(s) > 0 ==> s[KeptEnd(s) - 1] !in "\"\t\r"
  {
    if s != "" && s[|s| - 1] in "\"\t\r" { KeptEndIs(s[..|s| - 1]); }
  }

  /** What is left has no quote in front and neither a quote nor a tab nor a carriage return behind, and
      it is empty exactly when one of the two searches finds nothing. */
  lemma {:induction false} StrippedIs(s: string)
    ensures Stripped(s) == "" <==> QuotesEnd(s) == |s| || KeptEnd(s) == 0
    ensures var t := Stripped(s); t != "" ==> t[0] != '\"' && t[|t| - 1] !in "\"\t\r"
  {
    QuotesEndIs(s);
    KeptEndIs(s);
    hide QuotesEnd, KeptEnd;
  }

  function Folded(s: string, fold: char -> char): (r: string)
    ensures |r| == |s|
  {
    if s == "" then "" else [fold(s[0])] + Folded(s[1..], fold)
  }

  /** `strcmp`, as a sign. */
  function CompareStrings(s: string, t: string): (r: int)
    ensures -1 <= r <= 1
  {
    if s == "" then (if t == "" then 0 else -1)
    else if t == "" then 1
    else if s[0] != t[0] then (if s[0] < t[0] then -1 else 1)
    else CompareStrings(s[1..], t[1..])
  }

  function TextCompare(m: Mode, a: Cell, b: Cell): (r: int)
    ensures -1 <= r <= 1
  {
    CompareStrings(Folded(Stripped(a.raw), m.fold), Folded(Stripped(b.raw), m.fold))
  }

  // ---- typed comparison ----

  function CompareReals(x: real, y: real): int { if x == y then 0 else if x < y then -1 else 1 }

  /** What a typed column is ordered by; false comes before true. */
  function NativeKey(kind: Kind, c: Cell): real {
    match kind
    case Boolean => if c.number != 0.0 then 1.0 else 0.0
    case Number => c.number
    case Timedelta => c.seconds
    case Datetime => c.instant as real
    case Day => c.day as real
    case Plain => 0.0
  }

  function NativeCompare(m: Mode, a: Cell, b: Cell): (r: int)
    ensures -1 <= r <= 1
  {
    if m.kind == Plain then TextCompare(m, a, b)
    else CompareReals(NativeKey(m.kind, a), NativeKey(m.kind, b))
  }

  /** The comparator of a column. */
  function Compare(m: Mode, a: Cell, b: Cell): (r: int)
    ensures -1 <= r <= 1
  {
    var choice := Chosen(m);
    if choice == Native then NativeCompare(m, a, b)
    else if choice == TextOnly then TextCompare(m, a, b)
    else if a.isNull && b.isNull then 0
    else if a.isNull then 1
    else if b.isNull then -1
    else if choice == NullsThenNative then NativeCompare(m, a, b)
    else TextCompare(m, a, b)
  }

  // ---- every comparator is a total preorder ----

  lemma {:induction false} StringsEqual(s: string, t: string)
    ensures CompareStrings(s, t) == 0 <==> s == t
  {
    if s != "" && t != "" && s[0] == t[0] {
      StringsEqual(s[1..], t[1..]);
      assert s == [s[0]] + s[1..] && t == [t[0]] + t[1..];
    }
  }

  /** The first difference decides, and a proper prefix comes first. */
  lemma {:induction false} StringsOrder(s: string, t: string, k: nat)
    requires k <= |s| && k <= |t| && s[..k] == t[..k]
    ensures k < |s| && k < |t| && s[k] < t[k] ==> CompareStrings(s, t) == -1
    ensures k < |s| && k < |t| && s[k] > t[k] ==> CompareStrings(s, t) == 1
    ensures k == |s| < |t| ==> CompareStrings(s, t) == -1
    ensures k == |t| < |s| ==> CompareStrings(s, t) == 1
  {
    if k > 0 {
      assert s[0] == s[..k][0] == t[..k][0] == t[0];
      assert s[1..][..k - 1] == s[..k][1..] == t[..k][1..] == t[1..][..k - 1];
      StringsOrder(s[1..], t[1..], k - 1);
    }
  }

  lemma {:induction false} StringsConverse(s: string, t: string)
    ensures CompareStrings(t, s) == -CompareStrings(s, t)
  {
    if s != "" && t != "" && s[0] == t[0] { StringsConverse(s[1..], t[1..]); }
  }

  lemma {:induction false} StringsTransitive(s: string, t: string, u: string)
    requires CompareStrings(s, t) <= 0 && CompareStrings(t, u) <= 0
    ensures CompareStrings(s, u) <= 0
    ensures CompareStrings(s, t) < 0 || CompareStrings(t, u) < 0 ==> CompareStrings(s, u) < 0
  {
    if s != "" && t != "" && u != "" && s[0] == t[0] && t[0] == u[0] {
      StringsTransitive(s[1..], t[1..], u[1..]);
    }
  }

  /** Exchanging the cells changes the sign. */
  lemma {:induction false} CompareConverse(m: Mode, a: Cell, b: Cell)
    ensures Compare(m, b, a) == -Compare(m, a, b)
  {
    StringsConverse(Folded(Stripped(a.raw), m.fold), Folded(Stripped(b.raw), m.fold));
    hide NativeKey, CompareStrings, Stripped, Folded;
  }

  lemma {:induction false} TextTransitive(m: Mode, a: Cell, b: Cell, c: Cell)
    requires TextCompare(m, a, b) <= 0 && TextCompare(m, b, c) <= 0
    ensures TextCompare(m, a, c) <= 0
    ensures TextCompare(m, a, b) < 0 || TextCompare(m, b, c) < 0 ==> TextCompare(m, a, c) < 0
  {
    hide CompareStrings;
    StringsTransitive(Folded(Stripped(a.raw), m.fold), Folded(Stripped(b.raw), m.fold), Folded(Stripped(c.raw),
        m.fold));
  }

  lemma {:induction false} NativeTransitive(m: Mode, a: Cell, b: Cell, c: Cell)
    requires NativeCompare(m, a, b) <= 0 && NativeCompare(m, b, c) <= 0
    ensures NativeCompare(m, a, c) <= 0
    ensures NativeCompare(m, a, b) < 0 || NativeCompare(m, b, c) < 0 ==> NativeCompare(m, a, c) < 0
  {
    hide TextCompare, NativeKey;
    if m.kind == Plain { TextTransitive(m, a, b, c); }
  }

  /** Not above is transitive, and strictly below carries through it. */
  lemma {:induction false} CompareTransitive(m: Mode, a: Cell, b: Cell, c: Cell)
    requires Compare(m, a, b) <= 0 && Compare(m, b, c) <= 0
    ensures Compare(m, a, c) <= 0
    ensures Compare(m, a, b) < 0 || Compare(m, b, c) < 0 ==> Compare(m, a, c) < 0
  {
    hide TextCompare, NativeCompare;
    if TextCompare(m, a, b) <= 0 && TextCompare(m, b, c) <= 0 { TextTransitive(m, a, b, c); }
    if NativeCompare(m, a, b) <= 0 && NativeCompare(m, b, c) <= 0 { NativeTransitive(m, a, b, c); }
  }

  /** Cells with a value are ordered by the value of the column's type, false before true, unless inference
      is off or nulls may stand among them as text; then by their text. */
  lemma {:induction false} TypedOrder(m: Mode, a: Cell, b: Cell)
    requires !a.isNull && !b.isNull
    ensures m.noInference || (m.hasBlanks && m.blanks) || m.kind == Plain ==> Compare(m, a, b) == TextCompare(m, a, b)
    ensures !m.noInference && !(m.hasBlanks && m.blanks) ==>
      && (m.kind == Boolean ==> (Compare(m, a, b) < 0 <==> a.number == 0.0 && b.number != 0.0))
      && (m.kind == Number ==> (Compare(m, a, b) < 0 <==> a.number < b.number))
      && (m.kind == Timedelta ==> (Compare(m, a, b) < 0 <==> a.seconds < b.seconds))
      && (m.kind == Datetime ==> (Compare(m, a, b) < 0 <==> a.instant < b.instant))
      && (m.kind == Day ==> (Compare(m, a, b) < 0 <==> a.day < b.day))
  {
    hide TextCompare;
  }

  /** In the modes that know nulls, a null stands after every other cell and equals every null. */
  lemma {:induction false} NullsLast(m: Mode, a: Cell, b: Cell)
    requires !m.blanks && m.hasBlanks && a.isNull
    ensures Compare(m, b, a) == if b.isNull then 0 else -1
    ensures Compare(m, a, b) == if b.isNull then 0 else 1
  {
  }

  // ---- sorting by several keys ----

  datatype SortKey = SortKey(column: nat, mode: Mode)

  ghost predicate Fits(keys: seq<SortKey>, row: Row) {
    forall k :: 0 <= k < |keys| ==> keys[k].column < |row|
  }

  /** The first key that tells the rows apart decides. */
  function Chain(keys: seq<SortKey>, a: Row, b: Row): (r: int)
    requires Fits(keys, a) && Fits(keys, b)
  {
    if keys == [] then 0
    else
      var r := Compare(keys[0].mode, a[keys[0].column], b[keys[0].column]);
      FitsTail(keys, a);
      FitsTail(keys, b);
      if r != 0 then r else Chain(keys[1..], a, b)
  }

  lemma {:induction false} FitsTail(keys: seq<SortKey>, row: Row)
    requires keys != [] && Fits(keys, row)
    ensures Fits(keys[1..], row)
  {
    assert forall k :: 0 <= k < |keys| - 1 ==> keys[1..][k] == keys[k + 1];
  }

  /** The first key on which the rows differ decides, whatever the keys behind it say. */
  lemma {:induction false} FirstDifference(keys: seq<SortKey>, a: Row, b: Row, k: nat)
    requires Fits(keys, a) && Fits(keys, b) && k <= |keys|
    requires forall i :: 0 <= i < k ==> Compare(keys[i].mode, a[keys[i].column], b[keys[i].column]) == 0
    ensures k == |keys| ==> Chain(keys, a, b) == 0
    ensures k < |keys| ==> var r := Compare(keys[k].mode, a[keys[k].column], b[keys[k].column]);
      r != 0 ==> Chain(keys, a, b) == r
    decreases |keys|
  {
    hide Compare;
    if k > 0 {
      FitsTail(keys, a);
      FitsTail(keys, b);
      assert forall i :: 0 <= i < k - 1 ==> keys[1..][i] == keys[i + 1];
      FirstDifference(keys[1..], a, b, k - 1);
    }
  }

  /** `sort_comparator`: with `std::less`, or with `std::greater` for a reversed sort. */
  method SortsBefore(keys: seq<SortKey>, a: Row, b: Row, greater: bool) returns (r: bool)
    requires Fits(keys, a) && Fits(keys, b)
    ensures r <==> if greater then Chain(keys, a, b) > 0 else Chain(keys, a, b) < 0
  {
    hide Compare;
    assert keys[0..] == keys;
    for i := 0 to |keys|
      invariant Fits(keys[i..], a) && Fits(keys[i..], b) && Chain(keys, a, b) == Chain(keys[i..], a, b)
    {
      assert keys[i..][0] == keys[i] && keys[i..][1..] == keys[i + 1..];
      var result := Compare(keys[i].mode, a[keys[i].column], b[keys[i].column]);
      if result != 0 {
        return if greater then result > 0 else result < 0;
      }
    }
    return false;
  }

  /** The reversed sort is the exact converse of the other. */
  lemma {:induction false} ChainConverse(keys: seq<SortKey>, a: Row, b: Row)
    requires Fits(keys, a) && Fits(keys, b)
    ensures Chain(keys, b, a) == -Chain(keys, a, b)
    decreases |keys|
  {
    hide Compare;
    if keys != [] {
      CompareConverse(keys[0].mode, a[keys[0].column], b[keys[0].column]);
      FitsTail(keys, a);
      FitsTail(keys, b);
      ChainConverse(keys[1..], a, b);
    }
  }

  lemma {:induction false} ChainTransitive(keys: seq<SortKey>, a: Row, b: Row, c: Row)
    requires Fits(keys, a) && Fits(keys, b) && Fits(keys, c)
    requires Chain(keys, a, b) <= 0 && Chain(keys, b, c) <= 0
    ensures Chain(keys, a, c) <= 0
    ensures Chain(keys, a, b) < 0 || Chain(keys, b, c) < 0 ==> Chain(keys, a, c) < 0
    decreases |keys|
  {
    hide Compare;
    if keys != [] {
      var col, m := keys[0].column, keys[0].mode;
      CompareTransitive(m, a[col], b[col], c[col]);
      if Compare(m, a[col], b[col]) == 0 && Compare(m, b[col], c[col]) == 0 {
        CompareConverse(m, a[col], b[col]);
        CompareConverse(m, b[col], c[col]);
        CompareTransitive(m, c[col], b[col], a[col]);
        CompareConverse(m, a[col], c[col]);
        FitsTail(keys, a);
        FitsTail(keys, b);
        FitsTail(keys, c);
        ChainTransitive(keys[1..], a, b, c);
      }
    }
  }

  /** The comparator of a sort is a strict weak order: irreflexive, asymmetric, transitive, and rows that
      are not before each other in either direction form classes. */
  lemma {:induction false} StrictWeakOrder(keys: seq<SortKey>, a: Row, b: Row, c: Row)
    requires Fits(keys, a) && Fits(keys, b) && Fits(keys, c)
    ensures Chain(keys, a, a) == 0
    ensures Chain(keys, a, b) < 0 ==> !(Chain(keys, b, a) < 0)
    ensures Chain(keys, a, b) < 0 && Chain(keys, b, c) < 0 ==> Chain(keys, a, c) < 0
    ensures Chain(keys, a, b) == 0 && Chain(keys, b, c) == 0 ==> Chain(keys, a, c) == 0
  {
    hide Chain;
    ChainConverse(keys, a, a);
    ChainConverse(keys, a, b);
    ChainConverse(keys, b, c);
    ChainConverse(keys, a, c);
    if Chain(keys, a, b) <= 0 && Chain(keys, b, c) <= 0 { ChainTransitive(keys, a, b, c); }
    if Chain(keys, c, b) <= 0 && Chain(keys, b, a) <= 0 { ChainTransitive(keys, c, b, a); }
  }

  // ---- searching a table sorted by one key ----

  /** Every row has the column, and no row is above a later one. */
  ghost predicate SortedBy(table: seq<Row>, column: nat, m: Mode) {
    && (forall i :: 0 <= i < |table| ==> column < |table[i]|)
    && (forall i, j :: 0 <= i < j < |table| ==> Compare(m, table[i][column], table[j][column]) <= 0)
  }

  /** `equal_range_comparator` of a row with the key. */
  predicate RowBefore(m: Mode, row: Row, column: nat, key: Cell)
    requires column < |row|
  {
    Compare(m, row[column], key) < 0
  }

  predicate KeyBefore(m: Mode, key: Cell, row: Row, column: nat)
    requires column < |row|
  {
    Compare(m, key, row[column]) < 0
  }

  method LowerBound(table: seq<Row>, column: nat, m: Mode, key: Cell) returns (lo: nat)
    requires SortedBy(table, column, m)
    ensures lo <= |table|
    ensures forall i :: 0 <= i < |table| ==> (i < lo <==> Compare(m, table[i][column], key) < 0)
  {
    hide Compare;
    lo := 0;
    var hi := |table|;
    while lo < hi
      invariant lo <= hi <= |table|
      invariant forall i :: 0 <= i < lo ==> Compare(m, table[i][column], key) < 0
      invariant forall i :: hi <= i < |table| ==> Compare(m, table[i][column], key) >= 0
    {
      var mid := lo + (hi - lo) / 2;
      ghost var at := table[mid][column];
      if RowBefore(m, table[mid], column, key) {
        forall i | lo <= i < mid
          ensures Compare(m, table[i][column], key) < 0
        {
          CompareTransitive(m, table[i][column], at, key);
        }
        lo := mid + 1;
      } else {
        CompareConverse(m, at, key);
        forall i | mid < i < hi
          ensures Compare(m, table[i][column], key) >= 0
        {
          CompareTransitive(m, key, at, table[i][column]);
          CompareConverse(m, key, table[i][column]);
        }
        hi := mid;
      }
    }
  }

  method UpperBound(table: seq<Row>, column: nat, m: Mode, key: Cell, from: nat) returns (lo: nat)
    requires SortedBy(table, column, m) && from <= |table|
    requires forall i :: 0 <= i < from ==> Compare(m, table[i][column], key) <= 0
    ensures from <= lo <= |table|
    ensures forall i :: 0 <= i < |table| ==> (i < lo <==> Compare(m, table[i][column], key) <= 0)
  {
    hide Compare;
    lo := from;
    var hi := |table|;
    while lo < hi
      invariant from <= lo <= hi <= |table|
      invariant forall i :: 0 <= i < lo ==> Compare(m, table[i][column], key) <= 0
      invariant forall i :: hi <= i < |table| ==> Compare(m, table[i][column], key) > 0
    {
      var mid := lo + (hi - lo) / 2;
      ghost var at := table[mid][column];
      CompareConverse(m, at, key);
      if KeyBefore(m, key, table[mid], column) {
        forall i | mid < i < hi
          ensures Compare(m, table[i][column], key) > 0
        {
          CompareTransitive(m, key, at, table[i][column]);
          CompareConverse(m, key, table[i][column]);
        }
        hi := mid;
      } else {
        forall i | lo <= i < mid
          ensures Compare(m, table[i][column], key) <= 0
        {
          CompareTransitive(m, table[i][column], at, key);
        }
        lo := mid + 1;
      }
    }
  }

  /** `std::equal_range` isolates exactly the rows whose cell compares equal to the key. */
  method EqualRange(table: seq<Row>, column: nat, m: Mode, key: Cell) returns (lo: nat, hi: nat)
    requires SortedBy(table, column, m)
    ensures lo <= hi <= |table|
    ensures forall i :: 0 <= i < |table| ==> (lo <= i < hi <==> Compare(m, table[i][column], key) == 0)
  {
    lo := LowerBound(table, column, m, key);
    hide Compare;
    hi := UpperBound(table, column, m, key, lo);
  }
}
