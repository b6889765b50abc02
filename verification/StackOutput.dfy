/**
 The whole output of stacking: exactly when every row can be written, and that every field then stands under
 its own name.
 */
module StackOutput {
  import opened Text
  import opened Stack
  import opened StackMeaning

  // ---- when every row can be written ----

  /** The last name of a merged header that has grown is a new one, and stands only there. */
  lemma {:induction false} MergeLast(h: seq<string>, names: seq<string>)
    ensures var r := Merge(h, names);
      r == h || (r != [] && r[|r| - 1] in names && Position(r, r[|r| - 1]) == |r| - 1)
  {
    hide Position;
    if names != [] {
      var front, x := names[..|names| - 1], names[|names| - 1];
      MergeLast(h, front);
      if x !in Merge(h, front) { PositionNew(Merge(h, front), x); }
    }
  }

  /** Every one of the names stands in the header, inside of a row. */
  ghost predicate Inside(names: seq<string>, first: seq<string>, total: nat) {
    forall x :: x in names ==> x in first && Position(first, x) < total
  }

  ghost predicate AllFit(headers: seq<seq<string>>, h: seq<string>, total: nat) {
    forall i :: 0 < i < |headers| ==> Fits(PositionsOf(headers[i], h), total)
  }

  /** All names stand inside of a row. */
  ghost predicate Before(names: seq<string>, h: seq<string>, total: nat) {
    forall x :: x in names ==> Position(h, x) < total
  }

  lemma {:induction false} FitsNames(headers: seq<seq<string>>, h: seq<string>, total: nat)
    requires headers != []
    ensures AllFit(headers, h, total) <==> Before(Flat(headers[1..]), h, total)
  {
    hide Position, Flat;
    if AllFit(headers, h, total) { FitsBefore(headers, h, total); }
    if Before(Flat(headers[1..]), h, total) {
      forall i | 0 < i < |headers|
        ensures Fits(PositionsOf(headers[i], h), total)
      {
        forall k | 0 <= k < |headers[i]|
          ensures PositionsOf(headers[i], h)[k] < total
        {
          assert headers[i] == headers[1..][i - 1];
          FlatNames(headers[1..], headers[i][k]);
        }
      }
    }
  }

  lemma {:induction false} FitsBefore(headers: seq<seq<string>>, h: seq<string>, total: nat)
    requires headers != [] && AllFit(headers, h, total)
    ensures Before(Flat(headers[1..]), h, total)
  {
    hide Position, Flat;
    var later := headers[1..];
    forall x | x in Flat(later)
      ensures Position(h, x) < total
    {
      FlatNames(later, x);
      var i :| 0 <= i < |later| && x in later[i];
      assert later[i] == headers[i + 1];
      var k :| 0 <= k < |later[i]| && later[i][k] == x;
      assert PositionsOf(headers[i + 1], h)[k] < total;
    }
  }

  /** All later columns have their positions inside of the rows exactly when the rows are not narrower than the
      header, or the later files bring no new name and repeat none that stands beyond the rows. */
  lemma {:induction false} FitsExactly(headers: seq<seq<string>>, g: Grouping, total: nat)
    requires headers != []
    ensures var h := FinalHeader(headers, g);
      AllFit(headers, h, total) <==> |h| <= total || Inside(Flat(headers[1..]), FirstHeader(headers[0], g), total)
  {
    var first, names, h := FirstHeader(headers[0], g), Flat(headers[1..]), FinalHeader(headers, g);
    FitsNames(headers, h, total);
    HeaderCovers(headers, g);
    MergeLast(first, names);
    hide Merge, Flat, Position, AllFit, FirstHeader, FinalHeader;
    NamesInside(first, names, h);
    if |h| <= total {
      forall x | x in names
        ensures Position(h, x) < total
      {
        assert x in Names(h);
      }
    }
  }

  /** A header that has not grown has all names. */
  lemma {:induction false} NamesInside(first: seq<string>, names: seq<string>, h: seq<string>)
    requires h == Merge(first, names)
    ensures (forall x :: x in names ==> x in first) <==> h == first
  {
    MergeNames(first, names);
    MergeKeeps(first, names);
    hide Merge;
    if forall x :: x in names ==> x in first {
      assert Names(names) - Names(first) == {};
    }
    if h == first {
      forall x | x in names
        ensures x in first
      {
        assert x in Names(first) + Names(names);
      }
    }
  }

  /** The condition on the headers alone: the first one repeats no more names than the rows have columns to
      spare, or the later files have only names that stand inside of the rows. */
  ghost predicate HeadersFit(files: seq<File>, reader: Reader, g: Grouping)
    requires files != []
  {
    var headers := Headers(files, reader);
    || |headers[0]| - |Names(headers[0])| <= (if Clash(headers, g) then 1 else 0) + SpareSpellings(files, reader)
    || Inside(Flat(headers[1..]), FirstHeader(headers[0], g), TotalCols(RawHeaders(files), g))
  }

  /** The condition is enough, and needed when every later file has a row. */
  lemma {:induction false} WritableExactly(files: seq<File>, reader: Reader, g: Grouping)
    requires files != []
    ensures HeadersFit(files, reader, g) ==> AllWritable(files, reader, g)
    ensures (forall i :: 0 < i < |files| ==> files[i].rows != []) ==>
      (AllWritable(files, reader, g) <==> HeadersFit(files, reader, g))
  {
    hide FinalHeader, TotalCols, Clash, AllNames, SpareSpellings, Names, Flat, FirstHeader, PositionsOf, Fits, Inside;
    var headers, total := Headers(files, reader), TotalCols(RawHeaders(files), g);
    WidthDifference(files, reader, g);
    FitsExactly(headers, g, total);
  }

  /** With different names in the first header every row can be written. */
  lemma {:induction false} DistinctWritable(files: seq<File>, reader: Reader, g: Grouping)
    requires files != [] && Distinct(Headers(files, reader)[0])
    ensures AllWritable(files, reader, g)
  {
    hide FinalHeader, TotalCols, Clash, AllNames, SpareSpellings, AllWritable, Inside, SpelledAlike;
    WidthDifference(files, reader, g);
    DistinctCount(Headers(files, reader)[0]);
    WritableExactly(files, reader, g);
  }

  /** A first header that repeats its name: the column of the second file lies beyond the rows. */
  lemma {:induction false} RepeatedFirst() returns (files: seq<File>, reader: Reader)
    ensures files == [File(["a", "a"], [], ""), File(["b"], [["1"]], "")]
    ensures reader.lineBreak == '\n' && forall s :: reader.unquote(s) == Unquoted(s)
    ensures FinalHeader(Headers(files, reader), NoGroups) == ["a", "a", "b"]
    ensures TotalCols(RawHeaders(files), NoGroups) == 2 && !AllWritable(files, reader, NoGroups)
  {
    var a, b := "a", "b";
    files := [File([a, a], [], ""), File([b], [["1"]], "")];
    reader := Reader('\n', s => Unquoted(s));
    assert Composed(a, reader) == a && Composed(b, reader) == b;
    assert ComposedAll([a, a], reader) == [a, a] && ComposedAll([b], reader) == [b];
    assert Headers(files, reader) == [[a, a], [b]] && RawHeaders(files) == [[a, a], [b]];
    RepeatedWidths(a, b);
    assert !Writable(files[1], [b], [a, a, b], 2) by { assert PositionsOf([b], [a, a, b])[0] == 2; }
  }

  lemma {:induction false} RepeatedWidths(a: string, b: string)
    requires a != b
    ensures FinalHeader([[a, a], [b]], NoGroups) == [a, a, b] && TotalCols([[a, a], [b]], NoGroups) == 2
    ensures Position([a, a, b], b) == 2
  {
    TwoHeaders([a, a], [b]);
    MergeNext([a, a], [], b);
    assert [] + [b] == [b] && [a, a] + [b] == [a, a, b];
    PositionNew([a, a], b);
    hide Flat, Position;
    assert Names([a, a]) + Names([b]) == {a, b};
  }

  // ---- the whole output ----

  /** Where a field of a later file stands: under its own column's name; nothing else is in the row but the group. */
  ghost predicate Aligned(row: seq<string>, fields: seq<string>, names: seq<string>, h: seq<string>, g: Grouping,
                          group: string)
  {
    && |fields| == |names|
    && (forall k :: 0 <= k < |names| ==> Position(h, names[k]) < |row| && Position(h, names[k]) < |h|)
    && (forall k :: 0 <= k < |names| && LastAt(names, names[k], |names|) == k ==>
      row[Position(h, names[k])] == fields[k])
    && (forall p :: 0 <= p < |row| && (p >= |h| || h[p] !in names) ==>
          row[p] == if p == 0 && g.Groups? then group else "")
  }

  lemma {:induction false} NamesPlaced(names: seq<string>, h: seq<string>, total: nat)
    requires Fits(PositionsOf(names, h), total) && forall k :: 0 <= k < |names| ==> names[k] in h
    ensures forall k :: 0 <= k < |names| ==>
      Position(h, names[k]) < total && Position(h, names[k]) < |h| && h[Position(h, names[k])] == names[k]
  {
    forall k | 0 <= k < |names|
      ensures Position(h, names[k]) < total
    {
      assert PositionsOf(names, h)[k] < total;
    }
  }

  lemma {:induction false} RowIsAligned(rows: seq<seq<string>>, f: File, names: seq<string>, h: seq<string>,
      g: Grouping, total: nat, n: nat)
    requires FileStacked(rows, f, names, h, g, total) && n < |rows| && Distinct(h)
    requires forall k :: 0 <= k < |names| ==> names[k] in h
    ensures |rows[n]| == total && Aligned(rows[n], f.rows[n], names, h, g, f.group)
  {
    hide LastAt, Placed, Distinct, Base, Position, PositionsOf, Fits, StackedRow;
    var row := rows[n];
    NamesPlaced(names, h, total);
    forall p | 0 <= p < total
      ensures var k := if p < |h| then LastAt(names, h[p], |names|) else -1;
        row[p] == if k >= 0 then f.rows[n][k] else if p == 0 && g.Groups? then f.group else ""
    {
      RowAligned(rows, f, names, h, g, total, n, p);
    }
  }

  /** With different names in the first header and the group's name not among them, all files are written, and
      every field of every row stands under its own name: of a later file that repeats a name the last one. */
  lemma {:induction false} AllAligned(files: seq<File>, reader: Reader, g: Grouping, header: seq<string>,
      first: seq<seq<string>>, rest: Option<seq<seq<seq<string>>>>, i: nat, n: nat)
    requires files != [] && Stacked(files, reader, g, header, first, rest)
    requires var names := Headers(files, reader)[0]; Distinct(names) && (g.Groups? ==> GroupName(g) !in names)
    requires 0 < i < |files| && n < |files[i].rows|
    ensures rest.Some? && |rest.value| == |files| - 1 && Distinct(header)
    ensures |rest.value[i - 1]| == |files[i].rows| && |rest.value[i - 1][n]| == TotalCols(RawHeaders(files), g)
    ensures Aligned(rest.value[i - 1][n], files[i].rows[n], Headers(files, reader)[i], header, g, files[i].group)
  {
    hide FinalHeader, TotalCols, Aligned, AllWritable, FileStacked, Distinct, FirstRow;
    var headers := Headers(files, reader);
    DistinctWritable(files, reader, g);
    HeaderDistinct(headers, g);
    NamesFound(headers, i, g);
    FileIs(rest.value[i - 1], files[i], headers[i], header, g, TotalCols(RawHeaders(files), g));
    RowIsAligned(rest.value[i - 1], files[i], headers[i], header, g, TotalCols(RawHeaders(files), g), n);
  }

  lemma {:induction false} FileIs(rows: seq<seq<string>>, f: File, names: seq<string>, h: seq<string>, g: Grouping,
      total: nat)
    requires FileStacked(rows, f, names, h, g, total)
    ensures |rows| == |f.rows|
  {
  }

  lemma {:induction false} NamesFound(headers: seq<seq<string>>, i: nat, g: Grouping)
    requires 0 < i < |headers|
    ensures forall k :: 0 <= k < |headers[i]| ==> headers[i][k] in FinalHeader(headers, g)
  {
    hide FinalHeader, Position;
    FitsHeader(headers, i, g);
    forall k | 0 <= k < |headers[i]|
      ensures headers[i][k] in FinalHeader(headers, g)
    {
      assert PositionsOf(headers[i], FinalHeader(headers, g))[k] < |FinalHeader(headers, g)|;
    }
  }

  /** Then the rows of the first file are as wide as all others, and stand under their own header. */
  lemma {:induction false} FirstIsAligned(files: seq<File>, reader: Reader, g: Grouping, header: seq<string>,
      first: seq<seq<string>>, rest: Option<seq<seq<seq<string>>>>, n: nat, p: nat)
    requires files != [] && Stacked(files, reader, g, header, first, rest) && Distinct(Headers(files, reader)[0])
    requires n < |files[0].rows| && |files[0].rows[n]| == |files[0].header| && p < |files[0].header|
    ensures var c := GroupColumns(g);
      && |first[n]| == TotalCols(RawHeaders(files), g) && c + |files[0].header| <= |first[n]|
      && (c == 1 ==> first[n][0] == files[0].group && header != [] && header[0] == GroupName(g))
      && c + p < |header| && header[c + p] == Headers(files, reader)[0][p] && first[n][c + p] == files[0].rows[n][p]
  {
    hide FinalHeader, TotalCols, AllWritable, FileStacked, Distinct, FirstRow;
    WideEnough(files, reader, g);
    FirstRowAligned(Headers(files, reader), g, files[0].rows[n], files[0].group, TotalCols(RawHeaders(files), g), p);
  }

  lemma {:induction false} WideEnough(files: seq<File>, reader: Reader, g: Grouping)
    requires files != [] && Distinct(Headers(files, reader)[0])
    ensures GroupColumns(g) + |files[0].header| <= TotalCols(RawHeaders(files), g)
  {
    var headers := Headers(files, reader);
    hide TotalCols, Distinct, Clash, AllNames, Names, SpelledAlike, SpareSpellings;
    WidthDifference(files, reader, g);
    DistinctCount(headers[0]);
    HeaderGrows(headers, g);
  }

  lemma {:induction false} HeaderGrows(headers: seq<seq<string>>, g: Grouping)
    requires headers != []
    ensures GroupColumns(g) + |headers[0]| <= |FinalHeader(headers, g)|
  {
    MergeKeeps(FirstHeader(headers[0], g), Flat(headers[1..]));
  }

  lemma {:induction false} FirstRowAligned(headers: seq<seq<string>>, g: Grouping, fields: seq<string>, group: string,
      total: nat, p: nat)
    requires headers != [] && p < |fields| == |headers[0]| && GroupColumns(g) + |fields| <= total
    ensures var h, c, r := FinalHeader(headers, g), GroupColumns(g), FirstRow(fields, g, group, total);
      && |r| == total && (c == 1 ==> r[0] == group && h != [] && h[0] == GroupName(g))
      && c + p < |h| && h[c + p] == headers[0][p] && r[c + p] == fields[p]
  {
    hide FinalHeader, FirstRow;
    FirstRowWide(fields, g, group, total);
    FirstAligned(headers, g, fields, group, total, 0);
    FirstAligned(headers, g, fields, group, total, GroupColumns(g) + p);
  }

  lemma {:induction false} FirstRowWide(fields: seq<string>, g: Grouping, group: string, total: nat)
    ensures |FirstRow(fields, g, group, total)| >= total
  {
  }

  // ---- names, spelled out ----

  lemma {:induction false} ReplacedIs(s: string, x: char, y: char)
    ensures forall k :: 0 <= k < |s| ==> Replaced(s, x, y)[k] == if s[k] == x then y else s[k]
  {
    if s != "" { ReplacedIs(s[1..], x, y); }
  }

  /** A header cell keeps its quotes when it holds a comma or a line break, and every line break becomes a newline;
      any other cell is unquoted. */
  lemma {:induction false} NameOf(raw: string, reader: Reader)
    ensures var r := Composed(raw, reader);
      if ',' in raw || '\n' in raw then r == raw
      else if reader.lineBreak in raw then
        |r| == |raw| && forall k :: 0 <= k < |raw| ==> r[k] == if raw[k] == reader.lineBreak then '\n' else raw[k]
      else r == reader.unquote(raw)
  {
    ReplacedIs(raw, reader.lineBreak, '\n');
    hide Replaced;
  }

  /** The group column stands in front, under the name given or under "group". */
  lemma {:induction false} GroupInFront(headers: seq<seq<string>>, given: string)
    requires headers != []
    ensures var h := FinalHeader(headers, Groups(given));
      h != [] && h[0] == if given == "" then "group" else given
  {
    MergeKeeps(FirstHeader(headers[0], Groups(given)), Flat(headers[1..]));
  }

  /** New names stand behind the first header in the order in which they first appear. */
  lemma {:induction false} FirstAppearance(h: seq<string>, names: seq<string>, x: string, y: string)
    requires x in names && y in names && x !in h && y !in h
    ensures Position(Merge(h, names), x) < Position(Merge(h, names), y) <==> Position(names, x) < Position(names, y)
    ensures |h| <= Position(Merge(h, names), x) < |Merge(h, names)|
    decreases |names|
  {
    hide Position;
    var front, last := names[..|names| - 1], names[|names| - 1];
    assert names == front + [last];
    var r := Merge(h, front);
    AppearedAt(h, names, front, last, x);
    AppearedAt(h, names, front, last, y);
    if x in front && y in front {
      FirstAppearance(h, front, x, y);
    } else if x in front {
      FirstAppearance(h, front, x, x);
    } else if y in front {
      FirstAppearance(h, front, y, y);
    }
  }

  /** A name keeps its place when one is added; a new one comes last. */
  lemma {:induction false} AppearedAt(h: seq<string>, names: seq<string>, front: seq<string>, last: string, x: string)
    requires names == front + [last] && x in names && x !in h
    ensures var r := Merge(h, front);
      && (x in front <==> x in r)
      && (x in front ==> Position(Merge(h, names), x) == Position(r, x))
      && (x in front ==> Position(names, x) == Position(front, x) < |front|)
      && (x !in front ==> x == last && Position(Merge(h, names), x) == |r| && Position(names, x) == |front|)
      && |h| <= |r| && Position(Merge(h, names), x) < |Merge(h, names)|
  {
    hide Position;
    var r := Merge(h, front);
    MergeNext(h, front, last);
    MergeNames(h, front);
    MergeKeeps(h, front);
    assert x in Names(r) <==> x in Names(h) + Names(front);
    if x in front {
      PositionStays(front, x, last);
      PositionInside(front, x);
      PositionInside(r, x);
      if last !in r { PositionStays(r, x, last); }
    } else {
      PositionNew(front, x);
      PositionNew(r, x);
    }
  }

  lemma {:induction false} PositionInside(h: seq<string>, x: string)
    requires x in h
    ensures Position(h, x) < |h|
  {
  }
}
