/**
 The rows of a join one by one: from which rows they come, in which order, how often, and what stands in them.
 */
module JoinListing {
  import opened Comparators
  import opened JoinIndex
  import opened Joins

  /** Where a joined row comes from: a row of either table, or one of the first or of the second alone. */
  datatype Source = Both(i: nat, j: nat) | First(i: nat) | Second(j: nat)

  predicate InTables(t: Tables, x: Source) {
    match x
    case Both(i, j) => i < |t.left| && j < |t.right|
    case First(i) => i < |t.left|
    case Second(j) => j < |t.right|
  }

  /** By the first table's rows, for each of them by the second's; those of the second alone come last. */
  predicate Earlier(a: Source, b: Source) {
    match a
    case Both(i, j) => b.Second? || i < b.i || (i == b.i && b.Both? && j < b.j)
    case First(i) => b.Second? || i < b.i
    case Second(j) => b.Second? && j < b.j
  }

  ghost predicate InOrder(s: seq<Source>) { forall k, l :: 0 <= k < l < |s| ==> Earlier(s[k], s[l]) }

  /** The cells of the joined row: those of the first table's row in front; behind them those of the second's,
      without the joining column unless it is an outer join; empty cells in the place of a row that is not there. */
  ghost predicate IsRow(join: Join, t: Tables, x: Source, row: Row)
    requires Ok(t) && InTables(t, x)
  {
    match x
    case Both(i, j) =>
      var l, r := t.left[i], t.right[j];
      && |row| == |l| + (if join == Outer then |r| else |r| - 1) && (forall p :: 0 <= p < |l| ==> row[p] == l[p])
      && (forall p :: |l| <= p < |row| ==>
        row[p] == r[if join == Outer || p - |l| < t.c1 then p - |l| else p - |l| + 1])
    case First(i) =>
      var l := t.left[i];
      && |row| == |l| + (if join == Outer then t.width1 else t.width1 - 1)
      && (forall p :: 0 <= p < |l| ==> row[p] == l[p])
      && (forall p :: |l| <= p < |row| ==> row[p] == t.blank)
    case Second(j) =>
      var r := t.right[j];
      && |row| == t.width0 + |r| && (forall p :: 0 <= p < t.width0 ==> row[p] == t.blank)
      && (forall p :: t.width0 <= p < |row| ==> row[p] == r[p - t.width0])
  }

  /** The rows come from the sources, one by one. */
  ghost predicate Lists(join: Join, t: Tables, sources: seq<Source>, rows: seq<Row>)
    requires Ok(t)
  {
    && |sources| == |rows|
    && forall k :: 0 <= k < |rows| ==> InTables(t, sources[k]) && IsRow(join, t, sources[k], rows[k])
  }

  /** A source belongs to the join: two rows that compare equal, or one that is equal to none and kept. */
  ghost predicate Belongs(join: Join, t: Tables, x: Source)
    requires Ok(t)
  {
    InTables(t, x)
    && match x
       case Both(i, j) => Compare(t.mode, t.right[j][t.c1], t.left[i][t.c0]) == 0
       case First(i) =>
         join != Inner && forall j :: 0 <= j < |t.right| ==> Compare(t.mode, t.right[j][t.c1], t.left[i][t.c0]) != 0
       case Second(j) =>
         join == Outer && forall i :: 0 <= i < |t.left| ==> Compare(t.mode, t.right[j][t.c1], t.left[i][t.c0]) != 0
  }

  // ---- the rows that compare equal to a key ----

  /** They are found in file order, each once. */
  lemma {:induction false} EqualAt(rows: seq<Row>, column: nat, m: Mode, key: Cell) returns (at: seq<nat>)
    requires HasColumn(rows, column)
    ensures var r := EqualRows(rows, column, m, key);
      && |at| == |r| && (forall k :: 0 <= k < |at| ==> at[k] < |rows| && r[k] == rows[at[k]])
      && (forall k, l :: 0 <= k < l < |at| ==> at[k] < at[l])
      && (forall j :: 0 <= j < |rows| ==> (j in at <==> Compare(m, rows[j][column], key) == 0))
  {
    hide Compare;
    at := [];
    if rows != [] {
      var n := |rows| - 1;
      var front := rows[..n];
      assert HasColumn(front, column) && forall j :: 0 <= j < n ==> front[j] == rows[j];
      at := EqualAt(front, column, m, key);
      if Compare(m, rows[n][column], key) == 0 { at := at + [n]; }
    }
  }

  // ---- one row of the first table ----

  lemma {:induction false} PairedAt(l: Row, matches: seq<Row>, column: nat, dropKey: bool, k: nat)
    requires HasColumn(matches, column) && k < |matches|
    ensures |Paired(l, matches, column, dropKey)| == |matches|
    ensures Paired(l, matches, column, dropKey)[k] == Pair(l, matches[k], column, dropKey)
  {
    hide Pair;
    var n := |matches| - 1;
    assert HasColumn(matches[..n], column);
    if n > 0 { PairedAt(l, matches[..n], column, dropKey, if k < n then k else 0); }
  }

  lemma {:induction false} PairIs(join: Join, t: Tables, i: nat, j: nat)
    requires Ok(t) && i < |t.left| && j < |t.right|
    ensures IsRow(join, t, Both(i, j), Pair(t.left[i], t.right[j], t.c1, join != Outer))
  {
    assert t.c1 < |t.right[j]|;
  }

  lemma {:induction false} AloneIs(join: Join, t: Tables, i: nat)
    requires Ok(t) && i < |t.left|
    ensures Alone(join, t.left[i], t) == if join == Inner then [] else [Alone(join, t.left[i], t)[0]]
    ensures join != Inner ==> IsRow(join, t, First(i), Alone(join, t.left[i], t)[0])
  {
  }

  /** The row numbers of the second table paired with `i`. */
  function Pairs(i: nat, at: seq<nat>): (s: seq<Source>)
    ensures |s| == |at| && forall k :: 0 <= k < |at| ==> s[k] == Both(i, at[k])
  {
    seq(|at|, k requires 0 <= k < |at| => Both(i, at[k]))
  }

  lemma {:induction false} PairsMember(i: nat, at: seq<nat>, x: Source)
    ensures x in Pairs(i, at) <==> x.Both? && x.i == i && x.j in at
  {
    if x.Both? && x.i == i && x.j in at {
      var k :| 0 <= k < |at| && at[k] == x.j;
      assert Pairs(i, at)[k] == x;
    }
  }

  lemma {:induction false} PairsListed(join: Join, t: Tables, i: nat, matches: seq<Row>, at: seq<nat>)
    requires Ok(t) && i < |t.left| && HasColumn(matches, t.c1) && |at| == |matches|
    requires forall k :: 0 <= k < |at| ==> at[k] < |t.right| && matches[k] == t.right[at[k]]
    ensures Lists(join, t, Pairs(i, at), Paired(t.left[i], matches, t.c1, join != Outer))
  {
    hide Pair, IsRow, Paired;
    var rows := Paired(t.left[i], matches, t.c1, join != Outer);
    if matches == [] {
      NothingPaired(t.left[i], matches, t.c1, join != Outer);
    } else {
      PairedAt(t.left[i], matches, t.c1, join != Outer, 0);
    }
    forall k | 0 <= k < |rows|
      ensures InTables(t, Pairs(i, at)[k]) && IsRow(join, t, Pairs(i, at)[k], rows[k])
    {
      PairedAt(t.left[i], matches, t.c1, join != Outer, k);
      PairIs(join, t, i, at[k]);
    }
  }

  lemma {:induction false} NothingPaired(l: Row, matches: seq<Row>, column: nat, dropKey: bool)
    requires HasColumn(matches, column) && matches == []
    ensures Paired(l, matches, column, dropKey) == []
  {
  }

  lemma {:induction false} AloneListed(join: Join, t: Tables, i: nat)
    requires Ok(t) && i < |t.left|
    ensures Lists(join, t, if join == Inner then [] else [First(i)], Alone(join, t.left[i], t))
  {
    hide IsRow, Alone;
    AloneIs(join, t, i);
  }

  /** Which rows of the second table row `i` of the first meets, told from their numbers. */
  lemma {:induction false} BelongsAt(join: Join, t: Tables, i: nat, at: seq<nat>, x: Source)
    requires Ok(t) && i < |t.left| && !x.Second? && x.i == i && (forall k :: 0 <= k < |at| ==> at[k] < |t.right|)
    requires forall j :: 0 <= j < |t.right| ==> (j in at <==> Compare(t.mode, t.right[j][t.c1], t.left[i][t.c0]) == 0)
    ensures Belongs(join, t, x) <==> if x.Both? then x.j in at else join != Inner && at == []
  {
    hide Compare;
    if at != [] { assert at[0] in at; }
  }

  /** What one row of the first table contributes. */
  lemma {:induction false} RowListed(join: Join, t: Tables, i: nat) returns (s: seq<Source>)
    requires Ok(t) && i < |t.left|
    ensures Lists(join, t, s, FromRow(join, t.left[i], Matches(ByComparison, t.left[i], t), t)) && InOrder(s)
    ensures forall x: Source :: x in s <==> !x.Second? && x.i == i && Belongs(join, t, x)
  {
    hide Compare, EqualRows, Pair, Lists, Paired, Alone, Belongs;
    var matches := Matches(ByComparison, t.left[i], t);
    var at := EqualAt(t.right, t.c1, t.mode, t.left[i][t.c0]);
    if matches == [] {
      AloneListed(join, t, i);
      s := if join == Inner then [] else [First(i)];
    } else {
      PairsListed(join, t, i, matches, at);
      s := Pairs(i, at);
    }
    forall x: Source
      ensures x in s <==> !x.Second? && x.i == i && Belongs(join, t, x)
    {
      PairsMember(i, at, x);
      if !x.Second? && x.i == i { BelongsAt(join, t, i, at, x); }
    }
  }

  // ---- the whole join ----

  lemma {:induction false} ListsJoin(join: Join, t: Tables, a: seq<Source>, x: seq<Row>, b: seq<Source>, y: seq<Row>)
    requires Ok(t) && Lists(join, t, a, x) && Lists(join, t, b, y)
    ensures Lists(join, t, a + b, x + y)
  {
    hide IsRow, InTables;
  }

  lemma {:induction false} OrderJoin(a: seq<Source>, b: seq<Source>)
    requires InOrder(a) && InOrder(b) && forall x, y :: x in a && y in b ==> Earlier(x, y)
    ensures InOrder(a + b)
  {
    var s := a + b;
    hide Earlier;
    forall k, l | 0 <= k < l < |s|
      ensures Earlier(s[k], s[l])
    {
      if k < |a| && l >= |a| { assert a[k] in a && b[l - |a|] in b; }
    }
  }

  /** The sources of the rows made of the first `n` rows of the first table. */
  lemma {:induction false} LeftListed(join: Join, t: Tables, n: nat) returns (s: seq<Source>)
    requires Ok(t) && n <= |t.left|
    ensures Lists(join, t, s, LeftPart(ByComparison, join, t, n)) && InOrder(s)
    ensures forall x: Source :: x in s <==> !x.Second? && x.i < n && Belongs(join, t, x)
  {
    hide FromRow, Matches, Belongs, Lists, InOrder;
    if n == 0 {
      s := [];
      NoneListed(join, t);
    } else {
      var front := LeftListed(join, t, n - 1);
      var last := RowListed(join, t, n - 1);
      ListsJoin(join, t, front, LeftPart(ByComparison, join, t, n - 1), last,
        FromRow(join, t.left[n - 1], Matches(ByComparison, t.left[n - 1], t), t));
      OrderJoin(front, last);
      s := front + last;
    }
  }

  lemma {:induction false} NoneListed(join: Join, t: Tables)
    requires Ok(t)
    ensures Lists(join, t, [], []) && InOrder([])
  {
  }

  lemma {:induction false} SecondIs(join: Join, t: Tables, j: nat)
    requires Ok(t) && j < |t.right|
    ensures Lists(join, t, [Second(j)], [Blanks(t.blank, t.width0) + t.right[j]])
  {
  }

  lemma {:induction false} SecondBelongs(t: Tables, j: nat)
    requires Ok(t) && j < |t.right|
    ensures Belongs(Outer, t, Second(j)) <==> EqualRows(t.left, t.c0, t.mode, t.right[j][t.c1]) == []
  {
    hide Compare, EqualRows;
    RightMatchesAre(t, j);
    forall i | 0 <= i < |t.left|
      ensures Meet(t, i, j) <==> Compare(t.mode, t.right[j][t.c1], t.left[i][t.c0]) == 0
    {
    }
  }

  /** The sources of the rows of the second table alone, among its first `n`. */
  lemma {:induction false} RightListed(t: Tables, n: nat) returns (s: seq<Source>)
    requires Ok(t) && n <= |t.right|
    ensures Lists(Outer, t, s, RightPart(ByComparison, t, n)) && InOrder(s)
    ensures forall x: Source :: x in s <==> x.Second? && x.j < n && Belongs(Outer, t, x)
  {
    hide EqualRows, Belongs, Lists, InOrder, Blanks;
    if n == 0 {
      s := [];
      NoneListed(Outer, t);
    } else {
      var j := n - 1;
      s := RightListed(t, j);
      SecondBelongs(t, j);
      if EqualRows(t.left, t.c0, t.mode, t.right[j][t.c1]) == [] {
        SecondIs(Outer, t, j);
        ListsJoin(Outer, t, s, RightPart(ByComparison, t, j), [Second(j)], [Blanks(t.blank, t.width0) + t.right[j]]);
        OneInOrder(Second(j));
        OrderJoin(s, [Second(j)]);
        s := s + [Second(j)];
      } else {
        assert RightPart(ByComparison, t, j) + [] == RightPart(ByComparison, t, j);
      }
    }
  }

  lemma {:induction false} OneInOrder(x: Source)
    ensures InOrder([x])
  {
  }

  /** The rows of a join by comparison, one by one: their sources are exactly the pairs that compare equal and, by
      kind of join, the rows that are equal to none; each stands there once, in the order of the tables, with the
      cells of its rows. */
  lemma {:induction false} JoinListed(join: Join, t: Tables) returns (sources: seq<Source>)
    requires Ok(t)
    ensures Lists(join, t, sources, Joined(ByComparison, join, t)) && InOrder(sources)
    ensures forall x: Source :: x in sources <==> Belongs(join, t, x)
  {
    hide LeftPart, RightPart, Lists, InOrder;
    var left := LeftListed(join, t, |t.left|);
    if join == Outer {
      var right := RightListed(t, |t.right|);
      ListsJoin(join, t, left, LeftPart(ByComparison, join, t, |t.left|), right, RightPart(ByComparison, t, |t.right|));
      OrderJoin(left, right);
      sources := left + right;
    } else {
      sources := left;
      assert LeftPart(ByComparison, join, t, |t.left|) + [] == LeftPart(ByComparison, join, t, |t.left|);
    }
  }

  /** Columns of one type are joined by it; columns of different types, if they can be joined, as text. */
  lemma {:induction false} JoinedAs(a: Column, b: Column, noInference: bool, blanks: bool, fold: char -> char)
    ensures var r := CommonMode(a, b, noInference, blanks, fold);
      && (r != [] && a.kind == b.kind ==> r[0] == Mode(a.kind, a.hasBlanks || b.hasBlanks, noInference, blanks, fold))
      && (r != [] && a.kind != b.kind ==> r[0].kind == Plain || r[0].noInference)
      && (r != [] ==> r[0].noInference == noInference && r[0].blanks == blanks && r[0].fold == fold)
  {
  }
}
