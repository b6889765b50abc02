/**
 Stacking files with different headers (suite/csvStack.cpp): the merged header, the map from the columns
 of the later files to its positions, and the rows written through one reused row buffer. Rows are given
 by their fields; files are rectangular.
 */
module Stack {
  import opened Text

  /** A file: the raw texts of its header cells, its rows, and what the group column says for it. */
  datatype File = File(header: seq<string>, rows: seq<seq<string>>, group: string)

  ghost predicate Rectangular(f: File) {
    f.header != [] && forall i :: 0 <= i < |f.rows| ==> |f.rows[i]| == |f.header|
  }

  // ---- the two texts of a header cell ----

  /** What the reader makes of a cell: its line break, and the text without quotes. */
  datatype Reader = Reader(lineBreak: char, unquote: string -> string)

  function Replaced(s: string, x: char, y: char): (r: string)
    ensures |r| == |s|
  {
    if s == "" then "" else [if s[0] == x then y else s[0]] + Replaced(s[1..], x, y)
  }

  /** `compose_text`: quotes stay on a text that holds a comma or a line break. */
  function Composed(raw: string, reader: Reader): string {
    if ',' in raw || '\n' in raw then raw
    else if reader.lineBreak in raw then Replaced(raw, reader.lineBreak, '\n')
    else reader.unquote(raw)
  }

  function ComposedAll(header: seq<string>, reader: Reader): (r: seq<string>)
    ensures |r| == |header| && forall i :: 0 <= i < |header| ==> r[i] == Composed(header[i], reader)
  {
    seq(|header|, i requires 0 <= i < |header| => Composed(header[i], reader))
  }

  /** The loop that turns line breaks into '\n', first one first. */
  method ComposeText(raw: string, reader: Reader) returns (full: string)
    ensures full == Composed(raw, reader)
  {
    full := raw;
    if ',' in full || '\n' in full {
      return;
    }
    if reader.lineBreak != '\n' {
      var stayQuoted := false;
      var pos := Find(full, reader.lineBreak, 0);
      FindIn(full, reader.lineBreak, 0);
      assert full[0..] == full;
      assert full[..pos] + full[pos..] == full;
      while pos < |full|
        invariant pos <= |full| == |raw| && pos == Find(full, reader.lineBreak, 0)
        invariant Replaced(full, reader.lineBreak, '\n') == Replaced(raw, reader.lineBreak, '\n')
        invariant if stayQuoted then reader.lineBreak in raw else full == raw
        decreases |full| - pos
      {
        ReplacedAt(full, reader.lineBreak, '\n', pos);
        FindLater(full, reader.lineBreak, pos);
        full := full[pos := '\n'];
        pos := Find(full, reader.lineBreak, 0);
        stayQuoted := true;
      }
      FindIn(full, reader.lineBreak, 0);
      assert full[0..] == full;
      if stayQuoted {
        NothingReplaced(full, reader.lineBreak, '\n');
        return;
      }
    }
    full := reader.unquote(raw);
  }

  lemma {:induction false} ReplacedAt(s: string, x: char, y: char, p: nat)
    requires p < |s| && s[p] == x && x != y
    ensures Replaced(s[p := y], x, y) == Replaced(s, x, y)
  {
    if p > 0 {
      assert s[p := y][1..] == s[1..][p - 1 := y];
      ReplacedAt(s[1..], x, y, p - 1);
    } else {
      assert s[p := y][1..] == s[1..];
    }
  }

  lemma {:induction false} FindLater(s: string, x: char, p: nat)
    requires p == Find(s, x, 0) < |s| && x != '\n'
    ensures Find(s[p := '\n'], x, 0) > p
  {
    FindNone(s, x, 0);
    var t := s[p := '\n'];
    var q := Find(t, x, 0);
    assert q < |t| && q != p ==> s[q] == x;
  }

  lemma {:induction false} FindNone(s: string, x: char, i: nat)
    requires i <= |s|
    ensures forall k :: i <= k < Find(s, x, i) ==> s[k] != x
    decreases |s| - i
  {
    if i < |s| && s[i] != x { FindNone(s, x, i + 1); }
  }

  lemma {:induction false} NothingReplaced(s: string, x: char, y: char)
    requires x !in s
    ensures Replaced(s, x, y) == s
  {
    if s != "" {
      assert s == [s[0]] + s[1..];
      NothingReplaced(s[1..], x, y);
    }
  }

  // ---- the group column ----

  /** The group column, if there is one, with the name given for it. */
  datatype Grouping = NoGroups | Groups(given: string)

  /** The name is "group" unless one is given. */
  function GroupName(g: Grouping): string
    requires g.Groups?
  {
    if g.given == "" then "group" else g.given
  }

  function GroupColumns(g: Grouping): nat { if g.Groups? then 1 else 0 }

  // ---- the merged header ----

  /** `std::find`, as a distance; the length when there is none. */
  function Position(h: seq<string>, name: string): (p: nat)
    ensures p <= |h| && (p < |h| ==> h[p] == name) && (p < |h| <==> name in h)
  {
    if h == [] then 0
    else if h[0] == name then 0
    else
      assert h == [h[0]] + h[1..];
      1 + Position(h[1..], name)
  }

  /** The names added one by one if they are new. */
  function Merge(h: seq<string>, names: seq<string>): seq<string> {
    if names == [] then h
    else
      var r := Merge(h, names[..|names| - 1]);
      var name := names[|names| - 1];
      if name in r then r else r + [name]
  }

  /** The headers in a row. */
  function Flat(hs: seq<seq<string>>): seq<string> {
    if hs == [] then [] else Flat(hs[..|hs| - 1]) + hs[|hs| - 1]
  }

  function FirstHeader(first: seq<string>, g: Grouping): seq<string> {
    if g.Groups? then [GroupName(g)] + first else first
  }

  function FinalHeader(headers: seq<seq<string>>, g: Grouping): seq<string>
    requires headers != []
  {
    Merge(FirstHeader(headers[0], g), Flat(headers[1..]))
  }

  /** `replaceVec` gives every name its position in `h`. */
  ghost predicate Places(replaceVec: seq<nat>, names: seq<string>, h: seq<string>) {
    && |replaceVec| == |names|
    && forall k :: 0 <= k < |names| ==> replaceVec[k] < |h| && replaceVec[k] == Position(h, names[k])
  }

  lemma {:induction false} PositionIs(h: seq<string>, name: string, p: nat)
    requires p < |h| && h[p] == name && name !in h[..p]
    ensures Position(h, name) == p
  {
    if p > 0 {
      assert h[0] == h[..p][0];
      assert h[1..][..p - 1] == h[..p][1..];
      PositionIs(h[1..], name, p - 1);
    }
  }

  lemma {:induction false} PositionFirst(h: seq<string>, name: string)
    ensures name !in h[..Position(h, name)]
  {
    if h != [] && h[0] != name {
      PositionFirst(h[1..], name);
      var p := Position(h[1..], name);
      assert h[..p + 1] == [h[0]] + h[1..][..p];
    } else {
      assert h[..0] == [];
    }
  }

  /** A name that was found keeps its position when names are added behind. */
  lemma {:induction false} PositionStays(h: seq<string>, name: string, added: string)
    requires name in h
    ensures Position(h + [added], name) == Position(h, name)
  {
    var p := Position(h, name);
    PositionFirst(h, name);
    assert (h + [added])[..p] == h[..p];
    PositionIs(h + [added], name, p);
  }

  lemma {:induction false} PositionNew(h: seq<string>, name: string)
    requires name !in h
    ensures Position(h + [name], name) == |h|
  {
    assert (h + [name])[..|h|] == h;
    PositionIs(h + [name], name, |h|);
  }

  lemma {:induction false} PlacesNext(replaceVec: seq<nat>, names: seq<string>, h: seq<string>, name: string)
    requires Places(replaceVec, names, h)
    ensures name in h ==> Places(replaceVec + [Position(h, name)], names + [name], h)
    ensures name !in h ==> Places(replaceVec + [|h|], names + [name], h + [name])
  {
    if name !in h {
      PositionNew(h, name);
      hide Position;
      forall k | 0 <= k < |names|
        ensures Position(h + [name], names[k]) == replaceVec[k]
      {
        assert names[k] in h;
        PositionStays(h, names[k], name);
      }
    }
  }

  lemma {:induction false} MergeNext(h: seq<string>, names: seq<string>, name: string)
    ensures Merge(h, names + [name]) == if name in Merge(h, names) then Merge(h, names) else Merge(h, names) + [name]
  {
    var w := names + [name];
    assert w[..|w| - 1] == names;
  }

  lemma {:induction false} FlatNext(hs: seq<seq<string>>, header: seq<string>)
    ensures Flat(hs + [header]) == Flat(hs) + header
  {
    var w := hs + [header];
    assert w[..|w| - 1] == hs;
  }

  /** `fill_replace_vec` */
  method FillReplaceVec(headers: seq<seq<string>>, g: Grouping) returns (finalHeader: seq<string>, replaceVec: seq<nat>)
    requires headers != []
    ensures finalHeader == FinalHeader(headers, g)
    ensures Places(replaceVec, Flat(headers[1..]), finalHeader)
  {
    hide Places, Position;
    finalHeader := FirstHeader(headers[0], g);
    replaceVec := [];
    ghost var start := finalHeader;
    var later := headers[1..];
    NoPlaces(start);
    assert later[..0] == [];
    for i := 0 to |later|
      invariant finalHeader == Merge(start, Flat(later[..i])) && Places(replaceVec, Flat(later[..i]), finalHeader)
    {
      var header := later[i];
      ghost var before := Flat(later[..i]);
      assert later[..i + 1] == later[..i] + [header];
      FlatNext(later[..i], header);
      finalHeader, replaceVec := PlaceHeader(header, finalHeader, replaceVec, start, before);
    }
    assert later[..|later|] == later;
  }

  /** The columns of one later header. */
  method PlaceHeader(header: seq<string>, h: seq<string>, r: seq<nat>, ghost start: seq<string>,
      ghost before: seq<string>)
    returns (finalHeader: seq<string>, replaceVec: seq<nat>)
    requires h == Merge(start, before) && Places(r, before, h)
    ensures finalHeader == Merge(start, before + header) && Places(replaceVec, before + header, finalHeader)
  {
    hide Places, Position, Merge;
    finalHeader, replaceVec := h, r;
    assert before + header[..0] == before;
    for j := 0 to |header|
      invariant finalHeader == Merge(start, before + header[..j])
      invariant Places(replaceVec, before + header[..j], finalHeader)
    {
      var name := header[j];
      var it := Position(finalHeader, name);
      ghost var names := before + header[..j];
      assert before + header[..j + 1] == names + [name];
      MergeNext(start, names, name);
      PlacesNext(replaceVec, names, finalHeader, name);
      Found(finalHeader, name);
      if it == |finalHeader| {
        finalHeader := finalHeader + [name];
        replaceVec := replaceVec + [|finalHeader| - 1];
      } else {
        replaceVec := replaceVec + [it];
      }
    }
    assert header[..|header|] == header;
  }

  lemma {:induction false} NoPlaces(h: seq<string>)
    ensures Places([], [], h) && Merge(h, []) == h && Flat([]) == []
  {
  }

  lemma {:induction false} Found(h: seq<string>, name: string)
    ensures Position(h, name) == |h| <==> name !in h
  {
  }

  // ---- rows ----

  /** The row buffer before the columns of a file are written: empty but for the group. */
  function Base(g: Grouping, group: string, total: nat): (r: seq<string>)
    ensures |r| == total
  {
    seq(total, i => if i == 0 && g.Groups? then group else "")
  }

  /** The first `n` fields written to their positions. */
  function Placed(row: seq<string>, positions: seq<nat>, fields: seq<string>, n: nat): (r: seq<string>)
    requires n <= |positions| == |fields| && forall k :: 0 <= k < n ==> positions[k] < |row|
    ensures |r| == |row|
  {
    if n == 0 then row else Placed(row, positions, fields, n - 1)[positions[n - 1] := fields[n - 1]]
  }

  /** The last of the first `n` places that holds `x`, or -1. */
  function LastAt<T(==)>(s: seq<T>, x: T, n: nat): (k: int)
    requires n <= |s|
    ensures -1 <= k < n && (k >= 0 ==> s[k] == x)
    ensures forall j :: 0 <= j < n && s[j] == x ==> j <= k
  {
    if n == 0 then -1 else if s[n - 1] == x then n - 1 else LastAt(s, x, n - 1)
  }

  lemma {:induction false} PlacedAt(row: seq<string>, positions: seq<nat>, fields: seq<string>, n: nat, p: nat)
    requires n <= |positions| == |fields| && (forall k :: 0 <= k < n ==> positions[k] < |row|) && p < |row|
    ensures Placed(row, positions, fields, n)[p]
      == if LastAt(positions, p, n) >= 0 then fields[LastAt(positions, p, n)] else row[p]
  {
    if n > 0 { PlacedAt(row, positions, fields, n - 1, p); }
  }

  /** A row of a later file. */
  function StackedRow(positions: seq<nat>, fields: seq<string>, g: Grouping, group: string,
      total: nat): (r: seq<string>)
    requires |positions| == |fields| && forall k :: 0 <= k < |positions| ==> positions[k] < total
    ensures |r| == total
  {
    Placed(Base(g, group, total), positions, fields, |positions|)
  }

  /** The buffer between two rows: nothing but the group where this file has no column. */
  ghost predicate Clean(row: seq<string>, positions: seq<nat>, g: Grouping, total: nat) {
    && |row| == total
    && forall p :: 0 <= p < total && LastAt(positions, p, |positions|) < 0 ==> row[p] == "" || (p == 0 && g.Groups?)
  }

  /** Writing over a used buffer gives what writing over an empty one would. */
  lemma {:induction false} Rewritten(row: seq<string>, positions: seq<nat>, fields: seq<string>, g: Grouping,
      group: string, total: nat)
    requires |positions| == |fields| && Clean(row, positions, g, total)
    requires forall k :: 0 <= k < |positions| ==> positions[k] < total
    requires g.Groups? ==> total > 0
    ensures var start := if g.Groups? then row[0 := group] else row;
      var r := Placed(start, positions, fields, |positions|);
      r == StackedRow(positions, fields, g, group, total) && Clean(r, positions, g, total)
  {
    var start := if g.Groups? then row[0 := group] else row;
    var r := Placed(start, positions, fields, |positions|);
    var base := Base(g, group, total);
    hide Placed, LastAt;
    forall p | 0 <= p < total
      ensures r[p] == StackedRow(positions, fields, g, group, total)[p]
      ensures LastAt(positions, p, |positions|) < 0 ==> r[p] == "" || (p == 0 && g.Groups?)
    {
      PlacedAt(start, positions, fields, |positions|, p);
      PlacedAt(base, positions, fields, |positions|, p);
    }
  }

  /** Every position lies inside of a row. */
  ghost predicate Fits(positions: seq<nat>, total: nat) { forall k :: 0 <= k < |positions| ==> positions[k] < total }

  /** The rows of a later file, each written over the one before; none if a field is written out of range. */
  method PutFile(f: File, positions: seq<nat>, g: Grouping, total: nat) returns (out: Option<seq<seq<string>>>)
    requires Rectangular(f) && |positions| == |f.header|
    ensures out.Some? <==> f.rows == [] || Fits(positions, total)
    ensures out.Some? ==> |out.value| == |f.rows|
    ensures out.Some? ==>
      forall i :: 0 <= i < |f.rows| ==> out.value[i] == StackedRow(positions, f.rows[i], g, f.group, total)
  {
    hide Placed, StackedRow, LastAt;
    var row := new string[total](i => "");
    var rows := [];
    var n := 0;
    while n < |f.rows|
      invariant n == |rows| <= |f.rows| && Clean(row[..], positions, g, total) && (n > 0 ==> Fits(positions, total))
      invariant forall i :: 0 <= i < n ==> rows[i] == StackedRow(positions, f.rows[i], g, f.group, total)
    {
      var fields := f.rows[n];
      ghost var was := row[..];
      if g.Groups? {
        if total == 0 {
          assert positions[0] >= total;
          return None;
        }
        row[0] := f.group;
      }
      ghost var start := row[..];
      PlacedNone(start, positions, fields);
      for k := 0 to |fields|
        invariant forall j :: 0 <= j < k ==> positions[j] < total
        invariant row[..] == Placed(start, positions, fields, k)
      {
        if positions[k] >= total {
          return None;
        }
        PlacedNext(start, positions, fields, k);
        row[positions[k]] := fields[k];
      }
      assert start == if g.Groups? then was[0 := f.group] else was;
      Rewritten(was, positions, fields, g, f.group, total);
      rows := rows + [row[..]];
      n := n + 1;
    }
    out := Some(rows);
  }

  lemma {:induction false} PlacedNone(row: seq<string>, positions: seq<nat>, fields: seq<string>)
    requires |positions| == |fields|
    ensures Placed(row, positions, fields, 0) == row
  {
  }

  lemma {:induction false} PlacedNext(row: seq<string>, positions: seq<nat>, fields: seq<string>, n: nat)
    requires n < |positions| == |fields| && forall k :: 0 <= k <= n ==> positions[k] < |row|
    ensures Placed(row, positions, fields, n + 1) == Placed(row, positions, fields, n)[positions[n] := fields[n]]
  {
  }

  /** The rows of the first file: the group, the fields, and empty fields up to the width. */
  method PutFirst(f: File, g: Grouping, total: nat) returns (out: seq<seq<string>>)
    requires Rectangular(f)
    ensures |out| == |f.rows| && forall i :: 0 <= i < |out| ==> out[i] == FirstRow(f.rows[i], g, f.group, total)
  {
    out := [];
    for n := 0 to |f.rows|
      invariant |out| == n && forall i :: 0 <= i < n ==> out[i] == FirstRow(f.rows[i], g, f.group, total)
    {
      var fields := f.rows[n];
      var line := (if g.Groups? then [f.group] else []) + fields;
      ghost var written := line;
      var i := |fields| + GroupColumns(g);
      assert written + [] == written;
      while i < total
        invariant |written| <= i && (i <= total || i == |written|) && line == written + Empties(i - |written|)
      {
        assert Empties(i - |written|) + [""] == Empties(i + 1 - |written|);
        line := line + [""];
        i := i + 1;
      }
      assert line == FirstRow(fields, g, f.group, total);
      out := out + [line];
    }
  }

  function Empties(n: nat): (r: seq<string>)
    ensures |r| == n && forall k :: 0 <= k < n ==> r[k] == ""
  {
    if n == 0 then [] else Empties(n - 1) + [""]
  }

  function FirstRow(fields: seq<string>, g: Grouping, group: string, total: nat): seq<string> {
    var line := (if g.Groups? then [group] else []) + fields;
    line + Empties(if |line| < total then total - |line| else 0)
  }
}
