/**
 Joining two tables through the hash index (suite/include/csvjoin: can_compare.h, compare_composers.h,
 inner_join.h, left_right_join.h, outer_join.h): the index finds what a nested loop over the rows would.
 */
module Joins {
  import opened Comparators
  import opened JoinIndex

  datatype Join = Inner | Left | Outer

  /** Two tables, their joining columns, their widths, the comparison, and an empty cell. */
  datatype Tables = Tables(
    left: seq<Row>, right: seq<Row>, c0: nat, c1: nat, width0: nat, width1: nat, mode: Mode, blank: Cell)

  ghost predicate Ok(t: Tables) {
    HasColumn(t.left, t.c0) && HasColumn(t.right, t.c1) && t.c1 < t.width1
  }

  // ---- the comparison of the joining columns ----

  /** What `typify` found of a joining column. */
  datatype Column = Column(kind: Kind, hasBlanks: bool)

  /** `can_compare` and `align_blanks`: the comparator of the two columns, if they can be compared. */
  function CommonMode(a: Column, b: Column, noInference: bool, blanks: bool, fold: char -> char): (r: seq<Mode>)
    ensures |r| <= 1
    ensures r == [] <==> a.kind != b.kind && !noInference && !(a.hasBlanks && b.hasBlanks)
    ensures r != [] ==> (r[0].hasBlanks <==> a.hasBlanks || b.hasBlanks)
  {
    var worst := a.hasBlanks || b.hasBlanks;
    if a.kind == b.kind || noInference then [Mode(b.kind, worst, noInference, blanks, fold)]
    else if a.hasBlanks && b.hasBlanks then [Mode(Plain, worst, noInference, blanks, fold)]
    else []
  }

  // ---- what a join is ----

  function Blanks(blank: Cell, n: nat): Row { seq(n, i => blank) }

  function Pair(l: Row, r: Row, column: nat, dropKey: bool): Row
    requires column < |r|
  {
    l + if dropKey then r[..column] + r[column + 1..] else r
  }

  function Paired(l: Row, matches: seq<Row>, column: nat, dropKey: bool): seq<Row>
    requires HasColumn(matches, column)
  {
    if matches == [] then []
    else
      var n := |matches| - 1;
      assert HasColumn(matches[..n], column);
      Paired(l, matches[..n], column, dropKey) + [Pair(l, matches[n], column, dropKey)]
  }

  lemma {:induction false} EqualRowsHaveColumn(rows: seq<Row>, column: nat, m: Mode, key: Cell)
    requires HasColumn(rows, column)
    ensures HasColumn(EqualRows(rows, column, m, key), column)
  {
    if rows != [] {
      var n := |rows| - 1;
      assert HasColumn(rows[..n], column);
      EqualRowsHaveColumn(rows[..n], column, m, key);
    }
  }

  lemma {:induction false} ScannedHaveColumn(rows: seq<Row>, column: nat, m: Mode, h: Hasher, key: Cell)
    requires HasColumn(rows, column)
    ensures HasColumn(Scanned(rows, column, m, h, key), column)
  {
    if rows != [] {
      var n := |rows| - 1;
      assert HasColumn(rows[..n], column);
      ScannedHaveColumn(rows[..n], column, m, h, key);
    }
  }

  /** Rows match when their cells compare equal, or when the index takes their cells for the same key. */
  datatype Matching = ByComparison | ByIndex(hasher: Hasher)

  function MatchingRows(how: Matching, rows: seq<Row>, column: nat, m: Mode, key: Cell): (r: seq<Row>)
    requires HasColumn(rows, column)
    ensures HasColumn(r, column)
  {
    match how
    case ByComparison =>
      EqualRowsHaveColumn(rows, column, m, key);
      EqualRows(rows, column, m, key)
    case ByIndex(h) =>
      ScannedHaveColumn(rows, column, m, h, key);
      Scanned(rows, column, m, h, key)
  }

  /** A row of the first table with no match: dropped, or filled up with empty cells. */
  function Alone(join: Join, l: Row, t: Tables): seq<Row>
    requires t.width1 > 0
  {
    match join
    case Inner => []
    case Left => [l + Blanks(t.blank, t.width1 - 1)]
    case Outer => [l + Blanks(t.blank, t.width1)]
  }

  /** What one row of the first table contributes, given its matches. */
  function FromRow(join: Join, l: Row, matches: seq<Row>, t: Tables): seq<Row>
    requires HasColumn(matches, t.c1) && t.width1 > 0
  {
    if matches == [] then Alone(join, l, t) else Paired(l, matches, t.c1, join != Outer)
  }

  function Matches(how: Matching, l: Row, t: Tables): (r: seq<Row>)
    requires Ok(t) && t.c0 < |l|
    ensures HasColumn(r, t.c1)
  {
    MatchingRows(how, t.right, t.c1, t.mode, l[t.c0])
  }

  /** The nested loop over the first `n` rows of the first table. */
  function LeftPart(how: Matching, join: Join, t: Tables, n: nat): seq<Row>
    requires Ok(t) && n <= |t.left|
  {
    if n == 0 then []
    else LeftPart(how, join, t, n - 1) + FromRow(join, t.left[n - 1], Matches(how, t.left[n - 1], t), t)
  }

  /** The rows of the second table, among the first `n`, that match nothing in the first. */
  function RightPart(how: Matching, t: Tables, n: nat): seq<Row>
    requires Ok(t) && n <= |t.right|
  {
    if n == 0 then []
    else
      RightPart(how, t, n - 1)
      + if MatchingRows(how, t.left, t.c0, t.mode, t.right[n - 1][t.c1]) == []
        then [Blanks(t.blank, t.width0) + t.right[n - 1]] else []
  }

  function Joined(how: Matching, join: Join, t: Tables): seq<Row>
    requires Ok(t)
  {
    LeftPart(how, join, t, |t.left|) + if join == Outer then RightPart(how, t, |t.right|) else []
  }

  // ---- the joins as they run ----

  lemma {:induction false} LeftLookup(t: Tables, h: Hasher, i: nat)
    requires Ok(t) && i < |t.left|
    ensures Lookup(Indexed(t.right, t.c1, t.mode, h), t.mode, h, t.left[i][t.c0]) == Matches(ByIndex(h), t.left[i], t)
  {
    hide Scanned, Lookup, Indexed;
    LookupIsScan(t.right, t.c1, t.mode, h, t.left[i][t.c0]);
  }

  lemma {:induction false} RightLookup(t: Tables, h: Hasher, j: nat)
    requires Ok(t) && j < |t.right|
    ensures Lookup(Indexed(t.left, t.c0, t.mode, h), t.mode, h, t.right[j][t.c1])
      == MatchingRows(ByIndex(h), t.left, t.c0, t.mode, t.right[j][t.c1])
  {
    hide Scanned, Lookup, Indexed;
    LookupIsScan(t.left, t.c0, t.mode, h, t.right[j][t.c1]);
  }

  method PairAll(l: Row, matches: seq<Row>, column: nat, dropKey: bool) returns (r: seq<Row>)
    requires HasColumn(matches, column)
    ensures r == Paired(l, matches, column, dropKey)
  {
    r := [];
    for i := 0 to |matches|
      invariant HasColumn(matches[..i], column) && r == Paired(l, matches[..i], column, dropKey)
    {
      assert matches[..i + 1][..i] == matches[..i] && matches[..i + 1][i] == matches[i];
      r := r + [Pair(l, matches[i], column, dropKey)];
    }
    assert matches[..|matches|] == matches;
  }

  /** The rows of the first table, each with what the index of the second holds for it. */
  method JoinLeft(join: Join, t: Tables, h: Hasher) returns (r: seq<Row>)
    requires Ok(t)
    ensures r == LeftPart(ByIndex(h), join, t, |t.left|)
  {
    hide Matches, Lookup, Indexed, MatchingRows, Paired, Alone;
    var index := new CompromiseHash(t.right, t.c1, t.mode, h);
    r := [];
    for i := 0 to |t.left|
      invariant r == LeftPart(ByIndex(h), join, t, i) && index.map_ == Indexed(t.right, t.c1, t.mode, h)
    {
      var l := t.left[i];
      var matches := index.Search(l[t.c0]);
      LeftLookup(t, h, i);
      if matches != [] {
        var pairs := PairAll(l, matches, t.c1, join != Outer);
        r := r + pairs;
      } else {
        r := r + Alone(join, l, t);
      }
    }
  }

  /** The second pass of the outer join: an index of the first table, searched for each row of the second. */
  method JoinRight(t: Tables, h: Hasher) returns (r: seq<Row>)
    requires Ok(t)
    ensures r == RightPart(ByIndex(h), t, |t.right|)
  {
    hide Lookup, Indexed, MatchingRows;
    var index := new CompromiseHash(t.left, t.c0, t.mode, h);
    r := [];
    for j := 0 to |t.right|
      invariant r == RightPart(ByIndex(h), t, j) && index.map_ == Indexed(t.left, t.c0, t.mode, h)
    {
      var found := index.Search(t.right[j][t.c1]);
      RightLookup(t, h, j);
      if found == [] {
        r := r + [Blanks(t.blank, t.width0) + t.right[j]];
      }
    }
  }

  /** A join through the hash index: the nested loop by what the index takes for the same key, which is the
      nested loop by comparison when cells of the two tables that are equal as text are equal unquoted. */
  method JoinTables(join: Join, t: Tables, h: Hasher) returns (r: seq<Row>)
    requires Ok(t)
    ensures r == Joined(ByIndex(h), join, t)
    ensures TextsAgree(t) ==> r == Joined(ByComparison, join, t)
  {
    hide TextsAgree, LeftPart, RightPart;
    r := JoinLeft(join, t, h);
    if join == Outer {
      var rest := JoinRight(t, h);
      r := r + rest;
    }
    if TextsAgree(t) { SameJoins(join, t, h); }
  }

  // ---- when the index joins what compares equal ----

  /** Cells of the two tables that compare equal as text have the same unquoted text. */
  ghost predicate TextsAgree(t: Tables)
    requires Ok(t)
  {
    forall i :: 0 <= i < |t.left| ==> SameTexts(t.right, t.c1, t.mode, t.left[i][t.c0])
  }

  /** Typed columns always agree. */
  lemma {:induction false} TypedAgree(t: Tables)
    requires Ok(t) && Typed(t.mode)
    ensures TextsAgree(t)
  {
    hide SameTexts;
    forall i | 0 <= i < |t.left|
      ensures SameTexts(t.right, t.c1, t.mode, t.left[i][t.c0])
    {
      TypedTexts(t.right, t.c1, t.mode, t.left[i][t.c0]);
    }
  }

  lemma {:induction false} SameMatches(rows: seq<Row>, column: nat, m: Mode, h: Hasher, key: Cell)
    requires HasColumn(rows, column) && SameTexts(rows, column, m, key)
    ensures MatchingRows(ByIndex(h), rows, column, m, key) == MatchingRows(ByComparison, rows, column, m, key)
  {
    NothingMissed(rows, column, m, h, key);
    hide SameTexts, Missed, Scanned, EqualRows;
    ScanLength(rows, column, m, h, key);
  }

  lemma {:induction false} SameLeft(join: Join, t: Tables, h: Hasher, n: nat)
    requires Ok(t) && TextsAgree(t) && n <= |t.left|
    ensures LeftPart(ByIndex(h), join, t, n) == LeftPart(ByComparison, join, t, n)
  {
    hide SameTexts, MatchingRows, FromRow;
    if n > 0 {
      SameLeft(join, t, h, n - 1);
      SameMatches(t.right, t.c1, t.mode, h, t.left[n - 1][t.c0]);
    }
  }

  /** The condition is the same from the side of the second table. */
  lemma {:induction false} AgreeConverse(t: Tables, j: nat)
    requires Ok(t) && TextsAgree(t) && j < |t.right|
    ensures SameTexts(t.left, t.c0, t.mode, t.right[j][t.c1])
  {
    hide Compare;
    var key := t.right[j][t.c1];
    forall i | 0 <= i < |t.left| && Compare(t.mode, t.left[i][t.c0], key) == 0
      ensures ComparedAsText(t.mode, t.left[i][t.c0], key) ==> t.left[i][t.c0].unquoted == key.unquoted
    {
      CompareConverse(t.mode, t.left[i][t.c0], key);
      assert SameTexts(t.right, t.c1, t.mode, t.left[i][t.c0]);
    }
  }

  lemma {:induction false} SameRight(t: Tables, h: Hasher, n: nat)
    requires Ok(t) && TextsAgree(t) && n <= |t.right|
    ensures RightPart(ByIndex(h), t, n) == RightPart(ByComparison, t, n)
  {
    hide SameTexts, MatchingRows, Blanks;
    if n > 0 {
      SameRight(t, h, n - 1);
      AgreeConverse(t, n - 1);
      SameMatches(t.left, t.c0, t.mode, h, t.right[n - 1][t.c1]);
    }
  }

  lemma {:induction false} SameJoins(join: Join, t: Tables, h: Hasher)
    requires Ok(t) && TextsAgree(t)
    ensures Joined(ByIndex(h), join, t) == Joined(ByComparison, join, t)
  {
    hide TextsAgree, LeftPart, RightPart;
    SameLeft(join, t, h, |t.left|);
    if join == Outer { SameRight(t, h, |t.right|); }
  }

  lemma {:induction false} PairCount(l: Row, matches: seq<Row>, t: Tables)
    requires HasColumn(matches, t.c1) && t.width1 > 0
    ensures |FromRow(Inner, l, matches, t)| == |matches|
  {
    if matches != [] {
      var n := |matches| - 1;
      assert HasColumn(matches[..n], t.c1);
      PairCount(l, matches[..n], t);
    }
  }

  /** Row `i` of the first table has a match that the index misses. */
  ghost predicate MissedAt(t: Tables, h: Hasher, i: nat)
    requires Ok(t) && i < |t.left|
  {
    Missed(t.right, t.c1, t.mode, h, t.left[i][t.c0])
  }

  /** Every missed match is a pair less. */
  lemma {:induction false} FewerPairs(t: Tables, h: Hasher, n: nat)
    requires Ok(t) && n <= |t.left|
    ensures |LeftPart(ByIndex(h), Inner, t, n)| <= |LeftPart(ByComparison, Inner, t, n)|
    ensures (exists i :: 0 <= i < n && MissedAt(t, h, i)) ==>
      |LeftPart(ByIndex(h), Inner, t, n)| < |LeftPart(ByComparison, Inner, t, n)|
  {
    hide Missed, Scanned, EqualRows, FromRow;
    if n > 0 {
      var l := t.left[n - 1];
      FewerPairs(t, h, n - 1);
      PairCount(l, Matches(ByIndex(h), l, t), t);
      PairCount(l, Matches(ByComparison, l, t), t);
      ScanLength(t.right, t.c1, t.mode, h, l[t.c0]);
      hide Matches;
    }
  }

  /** Whatever the hash functions are, the inner join through the index is the inner join by comparison exactly
      when cells of the two tables that compare equal as text are equal unquoted. */
  lemma {:induction false} InnerExactly(t: Tables)
    requires Ok(t)
    ensures (forall h :: Joined(ByIndex(h), Inner, t) == Joined(ByComparison, Inner, t)) <==> TextsAgree(t)
  {
    hide SameTexts, LeftPart, Missed;
    if TextsAgree(t) {
      forall h: Hasher
        ensures Joined(ByIndex(h), Inner, t) == Joined(ByComparison, Inner, t)
      {
        SameJoins(Inner, t, h);
      }
    } else {
      var i :| 0 <= i < |t.left| && !SameTexts(t.right, t.c1, t.mode, t.left[i][t.c0]);
      var h := MissedBySome(t.right, t.c1, t.mode, t.left[i][t.c0]);
      assert MissedAt(t, h, i);
      FewerPairs(t, h, |t.left|);
      assert Joined(ByIndex(h), Inner, t) != Joined(ByComparison, Inner, t);
    }
  }

  // ---- what the joined rows are ----

  ghost predicate Meet(t: Tables, i: nat, j: nat)
    requires Ok(t) && i < |t.left| && j < |t.right|
  {
    Compare(t.mode, t.right[j][t.c1], t.left[i][t.c0]) == 0
  }

  lemma {:induction false} EqualRowsAre(rows: seq<Row>, column: nat, m: Mode, key: Cell, x: Row)
    requires HasColumn(rows, column)
    ensures x in EqualRows(rows, column, m, key)
      <==> exists j :: 0 <= j < |rows| && x == rows[j] && Compare(m, rows[j][column], key) == 0
  {
    hide Compare;
    if rows != [] {
      var n := |rows| - 1;
      var front := rows[..n];
      assert HasColumn(front, column) && forall j :: 0 <= j < n ==> front[j] == rows[j];
      EqualRowsAre(front, column, m, key, x);
    }
  }

  lemma {:induction false} PairedAre(l: Row, matches: seq<Row>, column: nat, dropKey: bool, x: Row)
    requires HasColumn(matches, column)
    ensures x in Paired(l, matches, column, dropKey)
      <==> exists j :: 0 <= j < |matches| && x == Pair(l, matches[j], column, dropKey)
  {
    hide Pair;
    if matches != [] {
      var n := |matches| - 1;
      var front := matches[..n];
      assert HasColumn(front, column) && forall j :: 0 <= j < n ==> front[j] == matches[j];
      PairedAre(l, front, column, dropKey, x);
    }
  }

  lemma {:induction false} LeftPartAre(join: Join, t: Tables, n: nat, x: Row)
    requires Ok(t) && n <= |t.left|
    ensures x in LeftPart(ByComparison, join, t, n)
      <==> exists i :: 0 <= i < n && x in FromRow(join, t.left[i], Matches(ByComparison, t.left[i], t), t)
  {
    hide FromRow, Matches;
    if n > 0 { LeftPartAre(join, t, n - 1, x); }
  }

  lemma {:induction false} RightPartAre(t: Tables, n: nat, x: Row)
    requires Ok(t) && n <= |t.right|
    ensures x in RightPart(ByComparison, t, n)
      <==> exists j :: 0 <= j < n && EqualRows(t.left, t.c0, t.mode, t.right[j][t.c1]) == []
                       && x == Blanks(t.blank, t.width0) + t.right[j]
  {
    hide EqualRows, Blanks;
    if n > 0 { RightPartAre(t, n - 1, x); }
  }

  /** Row `i` of the first table meets no row of the second. */
  ghost predicate LeftAlone(t: Tables, i: nat)
    requires Ok(t) && i < |t.left|
  {
    forall j :: 0 <= j < |t.right| ==> !Meet(t, i, j)
  }

  ghost predicate RightAlone(t: Tables, j: nat)
    requires Ok(t) && j < |t.right|
  {
    forall i :: 0 <= i < |t.left| ==> !Meet(t, i, j)
  }

  lemma {:induction false} MatchesAre(t: Tables, i: nat)
    requires Ok(t) && i < |t.left|
    ensures Matches(ByComparison, t.left[i], t) == [] <==> LeftAlone(t, i)
  {
    hide Compare, EqualRows;
    var matches := Matches(ByComparison, t.left[i], t);
    if matches != [] {
      var key := t.left[i][t.c0];
      EqualRowsAre(t.right, t.c1, t.mode, key, matches[0]);
      var j :| 0 <= j < |t.right| && matches[0] == t.right[j] && Compare(t.mode, t.right[j][t.c1], key) == 0;
      assert Meet(t, i, j);
    }
    forall j | 0 <= j < |t.right| && Meet(t, i, j)
      ensures matches != []
    {
      EqualRowsAre(t.right, t.c1, t.mode, t.left[i][t.c0], t.right[j]);
    }
  }

  lemma {:induction false} RightMatchesAre(t: Tables, j: nat)
    requires Ok(t) && j < |t.right|
    ensures EqualRows(t.left, t.c0, t.mode, t.right[j][t.c1]) == [] <==> RightAlone(t, j)
  {
    hide Compare, EqualRows;
    var key := t.right[j][t.c1];
    var matches := EqualRows(t.left, t.c0, t.mode, key);
    if matches != [] {
      EqualRowsAre(t.left, t.c0, t.mode, key, matches[0]);
      var i :| 0 <= i < |t.left| && matches[0] == t.left[i] && Compare(t.mode, t.left[i][t.c0], key) == 0;
      CompareConverse(t.mode, t.left[i][t.c0], key);
      assert Meet(t, i, j);
    }
    forall i | 0 <= i < |t.left| && Meet(t, i, j)
      ensures matches != []
    {
      CompareConverse(t.mode, t.left[i][t.c0], key);
      EqualRowsAre(t.left, t.c0, t.mode, key, t.left[i]);
    }
  }

  lemma {:induction false} FromRowAre(join: Join, t: Tables, i: nat, x: Row)
    requires Ok(t) && i < |t.left|
    ensures x in FromRow(join, t.left[i], Matches(ByComparison, t.left[i], t), t) <==>
      || (exists j :: 0 <= j < |t.right| && Meet(t, i, j) && x == Pair(t.left[i], t.right[j], t.c1, join != Outer))
      || (LeftAlone(t, i) && x in Alone(join, t.left[i], t))
  {
    hide Compare, EqualRows, Pair, Alone, Paired;
    var l := t.left[i];
    var matches := Matches(ByComparison, l, t);
    MatchesAre(t, i);
    if matches != [] {
      PairedAre(l, matches, t.c1, join != Outer, x);
      if j :| 0 <= j < |matches| && x == Pair(l, matches[j], t.c1, join != Outer) {
        EqualRowsAre(t.right, t.c1, t.mode, l[t.c0], matches[j]);
      }
      forall j | 0 <= j < |t.right| && Meet(t, i, j) && x == Pair(l, t.right[j], t.c1, join != Outer)
        ensures x in Paired(l, matches, t.c1, join != Outer)
      {
        EqualRowsAre(t.right, t.c1, t.mode, l[t.c0], t.right[j]);
      }
    }
  }

  /** The rows of a join: the pairs that meet; for a left or outer join the rows of the first table that
      meet nothing, filled up; for an outer join also those of the second. Nothing else. */
  lemma {:induction false} JoinMeans(join: Join, t: Tables, x: Row)
    requires Ok(t)
    ensures x in Joined(ByComparison, join, t) <==>
      || (exists i, j :: 0 <= i < |t.left| && 0 <= j < |t.right| && Meet(t, i, j)
            && x == Pair(t.left[i], t.right[j], t.c1, join != Outer))
      || (exists i :: 0 <= i < |t.left| && LeftAlone(t, i) && x in Alone(join, t.left[i], t))
      || (join == Outer
          && exists j :: 0 <= j < |t.right| && RightAlone(t, j) && x == Blanks(t.blank, t.width0) + t.right[j])
  {
    hide FromRow, Matches, Meet, LeftAlone, RightAlone, Pair, Alone, EqualRows, Blanks, LeftPart, RightPart;
    LeftPartAre(join, t, |t.left|, x);
    RightPartAre(t, |t.right|, x);
    forall i | 0 <= i < |t.left|
      ensures x in FromRow(join, t.left[i], Matches(ByComparison, t.left[i], t), t) <==>
        || (exists j :: 0 <= j < |t.right| && Meet(t, i, j) && x == Pair(t.left[i], t.right[j], t.c1, join != Outer))
        || (LeftAlone(t, i) && x in Alone(join, t.left[i], t))
    {
      FromRowAre(join, t, i, x);
    }
    forall j | 0 <= j < |t.right|
      ensures EqualRows(t.left, t.c0, t.mode, t.right[j][t.c1]) == [] <==> RightAlone(t, j)
    {
      RightMatchesAre(t, j);
    }
  }
}
