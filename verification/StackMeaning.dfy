/**
 Stacking aligns columns by name: what the merged header holds, when its width is the width of the rows,
 and where the fields of every file end up.
 */
module StackMeaning {
  import opened Text
  import opened Stack

  ghost predicate Distinct(h: seq<string>) { forall i, j :: 0 <= i < j < |h| ==> h[i] != h[j] }

  function Names(h: seq<string>): set<string> { set x | x in h }

  /** The raw headers of the files. */
  function RawHeaders(files: seq<File>): (hs: seq<seq<string>>)
    ensures |hs| == |files| && forall i :: 0 <= i < |files| ==> hs[i] == files[i].header
  {
    seq(|files|, i requires 0 <= i < |files| => files[i].header)
  }

  /** The headers with composed names. */
  function Headers(files: seq<File>, reader: Reader): (hs: seq<seq<string>>)
    ensures |hs| == |files| && forall i :: 0 <= i < |files| ==> hs[i] == ComposedAll(files[i].header, reader)
  {
    seq(|files|, i requires 0 <= i < |files| => ComposedAll(files[i].header, reader))
  }

  function AllNames(headers: seq<seq<string>>): set<string>
    requires headers != []
  {
    Names(headers[0]) + Names(Flat(headers[1..]))
  }

  /** `total_cols`: the number of different raw texts in all headers, and the group column. */
  function TotalCols(raw: seq<seq<string>>, g: Grouping): nat
    requires raw != []
  {
    |AllNames(raw)| + GroupColumns(g)
  }

  // ---- the merged header ----

  lemma {:induction false} NamesNext(h: seq<string>, x: string)
    ensures Names(h + [x]) == Names(h) + {x}
  {
  }

  /** The merged header has the names of both, and as many more columns as there are new names. */
  lemma {:induction false} MergeNames(h: seq<string>, names: seq<string>)
    ensures Names(Merge(h, names)) == Names(h) + Names(names)
    ensures |Merge(h, names)| == |h| + |Names(names) - Names(h)|
  {
    if names == [] {
      assert Names(names) == {} && Names(h) + {} == Names(h) && {} - Names(h) == {};
    } else {
      var front, x := names[..|names| - 1], names[|names| - 1];
      assert names == front + [x];
      MergeNames(h, front);
      NamesNext(front, x);
      NamesNext(Merge(h, front), x);
      var r := Merge(h, front);
      assert x in r <==> x in Names(r);
      hide Names;
      OneMore(Names(h), Names(front), x);
    }
  }

  lemma {:induction false} OneMore(h: set<string>, f: set<string>, x: string)
    ensures if x in h + f then h + (f + {x}) == h + f && (f + {x}) - h == f - h
            else h + (f + {x}) == (h + f) + {x} && |(f + {x}) - h| == |f - h| + 1
  {
    if x !in h + f { assert (f + {x}) - h == (f - h) + {x}; }
  }

  /** Merging never makes a name appear twice. */
  lemma {:induction false} MergeDistinct(h: seq<string>, names: seq<string>)
    ensures Distinct(Merge(h, names)) <==> Distinct(h)
  {
    if names != [] {
      var r, x := Merge(h, names[..|names| - 1]), names[|names| - 1];
      MergeDistinct(h, names[..|names| - 1]);
      if x !in r { DistinctNext(r, x); }
    }
  }

  lemma {:induction false} DistinctNext(r: seq<string>, x: string)
    requires x !in r
    ensures Distinct(r + [x]) <==> Distinct(r)
  {
    var t := r + [x];
    assert forall i :: 0 <= i < |r| ==> t[i] == r[i];
  }

  lemma {:induction false} DistinctFirst(x: string, h: seq<string>)
    ensures Distinct([x] + h) <==> Distinct(h) && x !in h
  {
    var t := [x] + h;
    assert forall i :: 0 <= i < |h| ==> t[i + 1] == h[i];
    if Distinct(t) {
      forall i, j | 0 <= i < j < |h|
        ensures h[i] != h[j]
      {
        assert t[i + 1] != t[j + 1];
      }
      forall i | 0 <= i < |h|
        ensures h[i] != x
      {
        assert t[0] != t[i + 1];
      }
    }
  }

  /** The merged header is free of duplicates exactly when the first header is and the group's name is not
      in it. */
  lemma {:induction false} HeaderDistinct(headers: seq<seq<string>>, g: Grouping)
    requires headers != []
    ensures Distinct(FinalHeader(headers, g)) <==> Distinct(headers[0]) && (g.Groups? ==> GroupName(g) !in headers[0])
  {
    hide Distinct, Merge;
    MergeDistinct(FirstHeader(headers[0], g), Flat(headers[1..]));
    if g.Groups? { DistinctFirst(GroupName(g), headers[0]); }
  }

  /** The merged header covers the union of all headers, with the group's name, and nothing else. */
  lemma {:induction false} HeaderCovers(headers: seq<seq<string>>, g: Grouping)
    requires headers != []
    ensures Names(FinalHeader(headers, g))
      == Names(headers[0]) + Names(Flat(headers[1..])) + if g.Groups? then {GroupName(g)} else {}
  {
    MergeNames(FirstHeader(headers[0], g), Flat(headers[1..]));
    hide Merge;
    if g.Groups? { NamesFirst(GroupName(g), headers[0]); }
  }

  lemma {:induction false} NamesFirst(x: string, h: seq<string>)
    ensures Names([x] + h) == Names(h) + {x}
  {
  }

  lemma {:induction false} FlatNames(hs: seq<seq<string>>, x: string)
    ensures x in Flat(hs) <==> exists i :: 0 <= i < |hs| && x in hs[i]
  {
    if hs != [] {
      var front := hs[..|hs| - 1];
      FlatNames(front, x);
      if i :| 0 <= i < |hs| && x in hs[i] {
        assert i < |front| ==> x in front[i];
      }
      if j :| 0 <= j < |front| && x in front[j] {
        assert x in hs[j];
      }
    }
  }

  lemma {:induction false} Without(s: set<string>, x: string)
    ensures |s - {x}| == |s| - if x in s then 1 else 0
  {
    if x !in s { assert s - {x} == s; }
  }

  lemma {:induction false} Union(s: set<string>, t: set<string>)
    ensures |s + t| == |s| + |t - s|
  {
    assert s + t == s + (t - s);
    Disjoint(s, t - s);
  }

  lemma {:induction false} Disjoint(s: set<string>, t: set<string>)
    requires s !! t
    ensures |s + t| == |s| + |t|
  {
  }

  /** The group's name is a column of a later file only. */
  ghost predicate Clash(headers: seq<seq<string>>, g: Grouping)
    requires headers != []
  {
    g.Groups? && GroupName(g) in Flat(headers[1..]) && GroupName(g) !in headers[0]
  }

  /** The merged header has every name once, the names that the first header repeats once more for each
      repetition, and the group's name, unless that is shared with a column of a later file. */
  lemma {:induction false} HeaderWidth(headers: seq<seq<string>>, g: Grouping)
    requires headers != []
    ensures |FinalHeader(headers, g)| == |AllNames(headers)| + GroupColumns(g)
      + (|headers[0]| - |Names(headers[0])|) - if Clash(headers, g) then 1 else 0
  {
    var first, later := headers[0], Flat(headers[1..]);
    var f, r := Names(first), Names(later);
    MergeNames(FirstHeader(first, g), later);
    Union(f, r);
    assert g.Groups? ==>
      (GroupName(g) in later <==> GroupName(g) in r) && (GroupName(g) in first <==> GroupName(g) in f);
    if g.Groups? {
      NamesFirst(GroupName(g), first);
      hide Names, Merge;
      Without(r - f, GroupName(g));
      assert r - (f + {GroupName(g)}) == r - f - {GroupName(g)};
    }
  }

  // ---- names and their spellings ----

  function ComposedSet(raw: set<string>, reader: Reader): set<string> { set x | x in raw :: Composed(x, reader) }

  /** Header cells with the same composed name have the same raw text. */
  ghost predicate SpelledAlike(raw: set<string>, reader: Reader) {
    forall x, y :: x in raw && y in raw && Composed(x, reader) == Composed(y, reader) ==> x == y
  }

  lemma {:induction false} Spellings(raw: set<string>, reader: Reader)
    ensures |ComposedSet(raw, reader)| <= |raw|
    ensures |ComposedSet(raw, reader)| == |raw| <==> SpelledAlike(raw, reader)
  {
    hide Composed;
    if raw == {} {
      assert ComposedSet(raw, reader) == {};
    } else {
      var x :| x in raw;
      var rest := raw - {x};
      Spellings(rest, reader);
      assert ComposedSet(raw, reader) == ComposedSet(rest, reader) + {Composed(x, reader)};
      hide ComposedSet;
      SpelledNext(rest, x, reader);
      assert raw == rest + {x};
      Adjoin(ComposedSet(rest, reader), Composed(x, reader));
    }
  }

  lemma {:induction false} Adjoin(s: set<string>, x: string)
    ensures |s + {x}| == |s| + if x in s then 0 else 1
  {
    if x in s { assert s + {x} == s; }
  }

  lemma {:induction false} SpelledNext(rest: set<string>, x: string, reader: Reader)
    requires x !in rest
    ensures SpelledAlike(rest + {x}, reader)
      <==> SpelledAlike(rest, reader) && Composed(x, reader) !in ComposedSet(rest, reader)
  {
    hide Composed;
  }

  lemma {:induction false} ComposedNames(header: seq<string>, reader: Reader)
    ensures Names(ComposedAll(header, reader)) == ComposedSet(Names(header), reader)
  {
    hide Composed;
    var r := ComposedAll(header, reader);
    forall x | x in ComposedSet(Names(header), reader)
      ensures x in Names(r)
    {
      var y :| y in Names(header) && x == Composed(y, reader);
      var i :| 0 <= i < |header| && header[i] == y;
      assert r[i] == x;
    }
  }

  lemma {:induction false} ComposedFlat(files: seq<File>, reader: Reader)
    ensures Flat(Headers(files, reader)) == ComposedAll(Flat(RawHeaders(files)), reader)
  {
    hide Composed;
    if files == [] {
      assert Headers(files, reader) == [] && RawHeaders(files) == [];
      assert ComposedAll([], reader) == [];
    } else {
      var n := |files| - 1;
      ComposedFlat(files[..n], reader);
      assert Headers(files, reader) == Headers(files[..n], reader) + [ComposedAll(files[n].header, reader)];
      assert RawHeaders(files) == RawHeaders(files[..n]) + [files[n].header];
      FlatNext(Headers(files[..n], reader), ComposedAll(files[n].header, reader));
      FlatNext(RawHeaders(files[..n]), files[n].header);
      hide Flat;
      ComposedJoin(Flat(RawHeaders(files[..n])), files[n].header, reader);
    }
  }

  lemma {:induction false} ComposedJoin(a: seq<string>, b: seq<string>, reader: Reader)
    ensures ComposedAll(a + b, reader) == ComposedAll(a, reader) + ComposedAll(b, reader)
  {
    hide Composed;
  }

  /** The names of all files are those composed of the raw texts of all files. */
  lemma {:induction false} NamesComposed(files: seq<File>, reader: Reader)
    requires files != []
    ensures AllNames(Headers(files, reader)) == ComposedSet(AllNames(RawHeaders(files)), reader)
  {
    ComposedNames(files[0].header, reader);
    assert Headers(files, reader)[1..] == Headers(files[1..], reader);
    assert RawHeaders(files)[1..] == RawHeaders(files[1..]);
    ComposedFlat(files[1..], reader);
    ComposedNames(Flat(RawHeaders(files[1..])), reader);
    hide Names, Flat, Composed;
    ComposedUnion(Names(files[0].header), Names(Flat(RawHeaders(files[1..]))), reader);
  }

  lemma {:induction false} ComposedUnion(s: set<string>, t: set<string>, reader: Reader)
    ensures ComposedSet(s + t, reader) == ComposedSet(s, reader) + ComposedSet(t, reader)
  {
    hide Composed;
  }

  /** How many raw texts of header cells there are beyond the names composed of them. */
  function SpareSpellings(files: seq<File>, reader: Reader): int
    requires files != []
  {
    |AllNames(RawHeaders(files))| - |AllNames(Headers(files, reader))|
  }

  /** The header is wider than the rows by the repeated names of the first header, less the group's name if
      it is a column of a later file only, and less the spellings of names beyond the first. */
  lemma {:induction false} WidthDifference(files: seq<File>, reader: Reader, g: Grouping)
    requires files != []
    ensures var headers, raw := Headers(files, reader), RawHeaders(files);
      |FinalHeader(headers, g)| - TotalCols(raw, g)
        == |headers[0]| - |Names(headers[0])| - (if Clash(headers, g) then 1 else 0) - SpareSpellings(files, reader)
    ensures SpareSpellings(files, reader) >= 0
    ensures SpareSpellings(files, reader) == 0 <==> SpelledAlike(AllNames(RawHeaders(files)), reader)
  {
    HeaderWidth(Headers(files, reader), g);
    NamesComposed(files, reader);
    Spellings(AllNames(RawHeaders(files)), reader);
    hide FinalHeader, AllNames, Names, SpelledAlike, Clash, ComposedSet, Composed;
  }

  /** With different names in the first header, header and rows are equally wide exactly when the group's name
      is not a column of a later file and no name is spelled in two ways. */
  lemma {:induction false} WidthsAgree(files: seq<File>, reader: Reader, g: Grouping)
    requires files != [] && Distinct(Headers(files, reader)[0])
    ensures |FinalHeader(Headers(files, reader), g)| == TotalCols(RawHeaders(files), g)
      <==> !Clash(Headers(files, reader), g) && SpelledAlike(AllNames(RawHeaders(files)), reader)
  {
    hide FinalHeader, TotalCols, Clash, SpelledAlike, AllNames, SpareSpellings;
    WidthDifference(files, reader, g);
    DistinctCount(Headers(files, reader)[0]);
  }

  /** Quotes around the whole text are taken off. */
  function Unquoted(s: string): string {
    if |s| >= 2 && s[0] == '\"' && s[|s| - 1] == '\"' then s[1..|s| - 1] else s
  }

  /** One name, quoted in the one file and bare in the other: the rows are wider than the header. */
  lemma {:induction false} MixedQuotes() returns (files: seq<File>, reader: Reader)
    ensures files == [File(["a", "b"], [], ""), File(["\"a\"", "b"], [], "")]
    ensures reader.lineBreak == '\n' && forall s :: reader.unquote(s) == Unquoted(s)
    ensures FinalHeader(Headers(files, reader), NoGroups) == ["a", "b"] && TotalCols(RawHeaders(files), NoGroups) == 3
  {
    files := [File(["a", "b"], [], ""), File(["\"a\"", "b"], [], "")];
    reader := Reader('\n', s => Unquoted(s));
    var a, b, q := "a", "b", "\"a\"";
    assert q[0] == '\"' && q[1] == 'a' && q[2] == '\"' && q[1..2] == a;
    assert Composed(a, reader) == a && Composed(b, reader) == b && Composed(q, reader) == a;
    var headers, raw := Headers(files, reader), RawHeaders(files);
    assert ComposedAll([a, b], reader) == [a, b] && ComposedAll([q, b], reader) == [a, b];
    assert headers == [[a, b], [a, b]] && raw == [[a, b], [q, b]];
    MixedWidths(a, b, q);
  }

  lemma {:induction false} MergeNothing(h: seq<string>, names: seq<string>)
    requires forall i :: 0 <= i < |names| ==> names[i] in h
    ensures Merge(h, names) == h
  {
    if names != [] { MergeNothing(h, names[..|names| - 1]); }
  }

  lemma {:induction false} TwoHeaders(first: seq<string>, second: seq<string>)
    ensures [first, second][0] == first && Flat([first, second][1..]) == second
  {
    assert [first, second][1..] == [] + [second] && [] + second == second;
    FlatNext([], second);
    assert Flat([]) == [];
  }

  lemma {:induction false} MixedWidths(a: string, b: string, q: string)
    requires a != b && a != q && b != q
    ensures FinalHeader([[a, b], [a, b]], NoGroups) == [a, b] && TotalCols([[a, b], [q, b]], NoGroups) == 3
  {
    var h, m := [a, b], [q, b];
    TwoHeaders(h, h);
    TwoHeaders(h, m);
    MergeNothing(h, h);
    hide Flat, Merge;
    assert Names(h) + Names(m) == {a, b, q};
  }

  lemma {:induction false} DistinctCount(h: seq<string>)
    requires Distinct(h)
    ensures |Names(h)| == |h|
  {
    if h != [] {
      var front, x := h[..|h| - 1], h[|h| - 1];
      assert h == front + [x];
      DistinctCount(front);
      NamesNext(front, x);
      assert x !in front;
      assert x !in Names(front);
      hide Names;
    } else {
      assert Names(h) == {};
    }
  }

  // ---- the rows ----

  function PositionsOf(names: seq<string>, h: seq<string>): (r: seq<nat>)
    ensures |r| == |names| && forall k :: 0 <= k < |names| ==> r[k] == Position(h, names[k])
  {
    seq(|names|, k requires 0 <= k < |names| => Position(h, names[k]))
  }

  /** The rows of a later file are written by the positions of its column names in `h`. */
  ghost predicate FileStacked(rows: seq<seq<string>>, f: File, names: seq<string>, h: seq<string>, g: Grouping,
                              total: nat) {
    && Rectangular(f) && |names| == |f.header| && |rows| == |f.rows|
    && (rows != [] ==> Fits(PositionsOf(names, h), total))
    && forall n :: 0 <= n < |rows| ==> rows[n] == StackedRow(PositionsOf(names, h), f.rows[n], g, f.group, total)
  }

  /** The rows of a later file can be written: all of its columns have their positions inside of a row. */
  ghost predicate Writable(f: File, names: seq<string>, h: seq<string>, total: nat) {
    f.rows == [] || Fits(PositionsOf(names, h), total)
  }

  /** The columns of the headers from `i` on, in `replaceVec` from `k` on. */
  ghost predicate Ahead(headers: seq<seq<string>>, i: nat, replaceVec: seq<nat>, k: nat, h: seq<string>)
    decreases |headers| - i
  {
    if i >= |headers| then k == |replaceVec|
    else
      var w := |headers[i]|;
      k + w <= |replaceVec| && replaceVec[k..k + w] == PositionsOf(headers[i], h)
      && Ahead(headers, i + 1, replaceVec, k + w, h)
  }

  lemma {:induction false} PlacesAhead(headers: seq<seq<string>>, i: nat, replaceVec: seq<nat>, h: seq<string>)
    requires i <= |headers| && Places(replaceVec, Flat(headers), h)
    ensures Flat(headers[..i]) <= Flat(headers)
    ensures Ahead(headers, i, replaceVec, |Flat(headers[..i])|, h)
    decreases |headers| - i
  {
    FlatPrefix(headers, i);
    if i == |headers| {
      assert headers[..i] == headers;
    } else {
      PlacesAhead(headers, i + 1, replaceVec, h);
      var before := headers[..i];
      assert headers[..i + 1] == before + [headers[i]];
      FlatNext(before, headers[i]);
      hide Flat, Places;
      SlicePlaces(replaceVec, Flat(headers), h, Flat(before), headers[i]);
    }
  }

  lemma {:induction false} SlicePlaces(replaceVec: seq<nat>, all: seq<string>, h: seq<string>,
      before: seq<string>, names: seq<string>)
    requires Places(replaceVec, all, h) && before + names <= all
    ensures |before| + |names| <= |replaceVec|
    ensures replaceVec[|before|..|before| + |names|] == PositionsOf(names, h)
  {
    var slice := replaceVec[|before|..|before| + |names|];
    hide Position;
    forall k | 0 <= k < |names|
      ensures slice[k] == PositionsOf(names, h)[k]
    {
      assert all[|before| + k] == (before + names)[|before| + k] == names[k];
    }
  }

  lemma {:induction false} FlatPrefix(headers: seq<seq<string>>, i: nat)
    requires i <= |headers|
    ensures Flat(headers[..i]) <= Flat(headers)
    decreases |headers| - i
  {
    if i == |headers| {
      assert headers[..i] == headers;
    } else {
      FlatPrefix(headers, i + 1);
      assert headers[..i + 1] == headers[..i] + [headers[i]];
      FlatNext(headers[..i], headers[i]);
    }
  }

  /** Every later column has a position in the merged header. */
  lemma {:induction false} FitsHeader(headers: seq<seq<string>>, i: nat, g: Grouping)
    requires 0 < i < |headers|
    ensures Fits(PositionsOf(headers[i], FinalHeader(headers, g)), |FinalHeader(headers, g)|)
  {
    HeaderCovers(headers, g);
    var h := FinalHeader(headers, g);
    hide FinalHeader, Flat;
    forall k | 0 <= k < |headers[i]|
      ensures Position(h, headers[i][k]) < |h|
    {
      FlatNames(headers[1..], headers[i][k]);
      assert headers[i][k] in headers[1..][i - 1];
      assert headers[i][k] in Names(h);
    }
  }

  /** `obtain_origins_and_headers`: the number of different raw texts, and the composed headers. */
  method ObtainOrigins(files: seq<File>, reader: Reader) returns (cols: nat, headers: seq<seq<string>>)
    requires files != []
    ensures cols == |AllNames(RawHeaders(files))| && headers == Headers(files, reader)
  {
    hide Composed;
    var headerFields: set<string> := {};
    headers := [];
    assert RawHeaders(files[..0]) == [] && Names(Flat([])) == {};
    for i := 0 to |files|
      invariant headerFields == Names(Flat(RawHeaders(files[..i]))) && headers == Headers(files[..i], reader)
    {
      var header := files[i].header;
      assert RawHeaders(files[..i + 1]) == RawHeaders(files[..i]) + [header];
      assert Headers(files[..i + 1], reader) == Headers(files[..i], reader) + [ComposedAll(header, reader)];
      FlatNext(RawHeaders(files[..i]), header);
      NamesJoin(Flat(RawHeaders(files[..i])), header);
      headerFields := headerFields + Names(header);
      var stringHeader := [];
      for j := 0 to |header|
        invariant |stringHeader| == j && forall k :: 0 <= k < j ==> stringHeader[k] == Composed(header[k], reader)
      {
        var name := ComposeText(header[j], reader);
        stringHeader := stringHeader + [name];
      }
      assert stringHeader == ComposedAll(header, reader);
      headers := headers + [stringHeader];
    }
    assert files[..|files|] == files;
    FlatFirst(RawHeaders(files));
    NamesJoin(RawHeaders(files)[0], Flat(RawHeaders(files)[1..]));
    cols := |headerFields|;
  }

  lemma {:induction false} NamesJoin(a: seq<string>, b: seq<string>)
    ensures Names(a + b) == Names(a) + Names(b)
  {
  }

  lemma {:induction false} FlatFirst(hs: seq<seq<string>>)
    requires hs != []
    ensures Flat(hs) == hs[0] + Flat(hs[1..])
  {
    var n := |hs| - 1;
    if n == 0 {
      assert hs[..0] == [] && hs[1..] == [] && hs[0] + [] == hs[0] == [] + hs[0];
    } else {
      FlatFirst(hs[..n]);
      assert hs[..n][1..] == hs[1..][..n - 1];
      assert hs[0] + (Flat(hs[1..][..n - 1]) + hs[n]) == hs[0] + Flat(hs[1..][..n - 1]) + hs[n];
    }
  }

  /** `put_rest`, file by file; nothing if a field is written out of range. */
  method PutRest(files: seq<File>, headers: seq<seq<string>>, g: Grouping, total: nat, replaceVec: seq<nat>,
      ghost h: seq<string>)
    returns (out: Option<seq<seq<seq<string>>>>)
    requires |headers| == |files|
    requires forall i :: 0 <= i < |files| ==> Rectangular(files[i]) && |headers[i]| == |files[i].header|
    requires Places(replaceVec, Flat(headers), h)
    ensures out.Some? <==> forall i :: 0 <= i < |files| ==> Writable(files[i], headers[i], h, total)
    ensures out.Some? ==> |out.value| == |files|
    ensures out.Some? ==>
      forall i :: 0 <= i < |files| ==> FileStacked(out.value[i], files[i], headers[i], h, g, total)
  {
    hide Places, Flat, StackedRow, Rectangular;
    var stacked := [];
    var replaceIdx: nat := 0;
    PlacesAhead(headers, 0, replaceVec, h);
    assert headers[..0] == [];
    NoFlat();
    for i := 0 to |files|
      invariant |stacked| == i && Ahead(headers, i, replaceVec, replaceIdx, h)
      invariant forall j :: 0 <= j < i ==> Writable(files[j], headers[j], h, total)
      invariant forall j :: 0 <= j < i ==> FileStacked(stacked[j], files[j], headers[j], h, g, total)
    {
      var f := files[i];
      var positions := replaceVec[replaceIdx..replaceIdx + |f.header|];
      var rows := PutFile(f, positions, g, total);
      if rows.None? {
        assert !Writable(f, headers[i], h, total);
        return None;
      }
      stacked := stacked + [rows.value];
      replaceIdx := replaceIdx + |f.header|;
    }
    out := Some(stacked);
  }

  lemma {:induction false} NoFlat()
    ensures Flat([]) == []
  {
  }

  /** The rows of every later file can be written. */
  ghost predicate AllWritable(files: seq<File>, reader: Reader, g: Grouping)
    requires files != []
  {
    var headers, total := Headers(files, reader), TotalCols(RawHeaders(files), g);
    forall i :: 0 < i < |files| ==> Writable(files[i], headers[i], FinalHeader(headers, g), total)
  }

  /** What is written for all files. */
  ghost predicate Stacked(files: seq<File>, reader: Reader, g: Grouping, header: seq<string>,
                          first: seq<seq<string>>, rest: Option<seq<seq<seq<string>>>>)
    requires files != []
  {
    var headers, total := Headers(files, reader), TotalCols(RawHeaders(files), g);
    && header == FinalHeader(headers, g)
    && |first| == |files[0].rows|
    && (forall n :: 0 <= n < |first| ==> first[n] == FirstRow(files[0].rows[n], g, files[0].group, total))
    && (rest.Some? <==> AllWritable(files, reader, g))
    && (rest.Some? ==> |rest.value| == |files| - 1)
    && (rest.Some? ==> forall i :: 0 <= i < |rest.value| ==>
      FileStacked(rest.value[i], files[i + 1], headers[i + 1], header, g, total))
  }

  /** `stack`: the header and the rows, file by file; no later rows if a field of one is written out of range. */
  method StackFiles(files: seq<File>, reader: Reader, g: Grouping)
    returns (header: seq<string>, first: seq<seq<string>>, rest: Option<seq<seq<seq<string>>>>)
    requires files != [] && forall i :: 0 <= i < |files| ==> Rectangular(files[i])
    ensures Stacked(files, reader, g, header, first, rest)
  {
    hide FinalHeader, Places, Flat, FileStacked, FirstRow, Rectangular, AllNames, Composed, ComposedAll, Writable;
    var cols, headers := ObtainOrigins(files, reader);
    var replaceVec;
    header, replaceVec := FillReplaceVec(headers, g);
    var total := cols + GroupColumns(g);
    first := PutFirst(files[0], g, total);
    rest := PutRest(files[1..], headers[1..], g, total, replaceVec, header);
    assert forall i :: 0 <= i < |files| - 1 ==> files[1..][i] == files[i + 1] && headers[1..][i] == headers[i + 1];
    assert forall i :: 0 < i < |files| ==> files[1..][i - 1] == files[i] && headers[1..][i - 1] == headers[i];
  }

  // ---- where the fields are ----

  lemma {:induction false} SameColumn(header: seq<string>, h: seq<string>, p: nat, n: nat)
    requires Distinct(h) && p < |h| && n <= |header|
    requires forall k :: 0 <= k < |header| ==> header[k] in h
    ensures LastAt(PositionsOf(header, h), p, n) == LastAt(header, h[p], n)
  {
    if n > 0 {
      SameColumn(header, h, p, n - 1);
      var q := Position(h, header[n - 1]);
      assert q < |h| && h[q] == header[n - 1];
      hide Position;
      assert q == p <==> h[q] == h[p];
    }
  }

  /** In a header without duplicates, the field of a later file stands under its own column's name, the last
      one if the file repeats the name; elsewhere, and behind the header, the row is empty but for the group. */
  lemma {:induction false} RowAligned(rows: seq<seq<string>>, f: File, names: seq<string>, h: seq<string>, g: Grouping,
      total: nat, n: nat, p: nat)
    requires FileStacked(rows, f, names, h, g, total) && n < |rows| && p < total && Distinct(h)
    requires forall k :: 0 <= k < |names| ==> names[k] in h
    ensures |rows[n]| == total && |f.rows[n]| == |names|
    ensures var k := if p < |h| then LastAt(names, h[p], |names|) else -1;
      rows[n][p] == if k >= 0 then f.rows[n][k] else if p == 0 && g.Groups? then f.group else ""
  {
    var positions := PositionsOf(names, h);
    if p < |h| {
      SameColumn(names, h, p, |names|);
    } else {
      assert forall k :: 0 <= k < |names| ==> positions[k] < |h|;
    }
    hide Placed, PositionsOf, Distinct;
    PlacedAt(Base(g, f.group, total), positions, f.rows[n], |positions|, p);
  }

  /** The rows of the first file stand under their own header; they are as wide as the other rows, or as they
      are long. */
  lemma {:induction false} FirstAligned(headers: seq<seq<string>>, g: Grouping, fields: seq<string>,
      group: string, total: nat, p: nat)
    requires headers != [] && |fields| == |headers[0]|
    requires p < |FirstRow(fields, g, group, total)|
    ensures var h, c := FinalHeader(headers, g), GroupColumns(g);
      var r := FirstRow(fields, g, group, total);
      && |r| == (if total < c + |fields| then c + |fields| else total) && c + |fields| <= |h|
      && r[p] == (if p < c then group else if p < c + |fields| then fields[p - c] else "")
      && (p < c ==> h[p] == GroupName(g)) && (c <= p < c + |fields| ==> h[p] == headers[0][p - c])
  {
    var h, first := FinalHeader(headers, g), FirstHeader(headers[0], g);
    MergeKeeps(first, Flat(headers[1..]));
    assert p < |first| ==> h[p] == first[p];
    assert |first| <= |h|;
    hide FinalHeader, Empties;
    FirstRowAt(fields, g, group, total, p);
  }

  lemma {:induction false} FirstRowAt(fields: seq<string>, g: Grouping, group: string, total: nat, p: nat)
    requires p < |FirstRow(fields, g, group, total)|
    ensures var r, c := FirstRow(fields, g, group, total), GroupColumns(g);
      && |r| == (if total < c + |fields| then c + |fields| else total)
      && r[p] == (if p < c then group else if p < c + |fields| then fields[p - c] else "")
  {
  }

  lemma {:induction false} MergeKeeps(h: seq<string>, names: seq<string>)
    ensures h <= Merge(h, names)
  {
    if names != [] { MergeKeeps(h, names[..|names| - 1]); }
  }
}
