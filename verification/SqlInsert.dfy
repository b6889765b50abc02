/**
 The CREATE TABLE printer of csvSql and the scanner that takes the column names back out of the printed
 text for an INSERT (suite/csvSql.cpp), for the dialects that quote names with '"', oracle apart.
 */
module SqlInsert {
  import opened Text

  /** A column: its name in the header and the type text that the dialect prints for it. */
  datatype Column = Column(name: string, kind: string)

  datatype Table = Table(phrase: string, name: string, columns: seq<Column>, unique: string)

  // ---- names ----

  function Letter(column: nat): (c: char)
    ensures c as int == 'a' as int + column % 26
  {
    ('a' as int + column % 26) as char
  }

  /** The letter of the column, once more for every 26 columns before it. */
  function Letters(column: nat): string { seq(column / 26 + 1, i => Letter(column)) }

  /** `letter_name`: names for the columns without one. */
  method LetterName(column: nat) returns (s: string)
    ensures s == Letters(column)
  {
    s := "";
    var c: nat := column;
    while c >= 26
      invariant c <= column && c % 26 == column % 26 && |s| == column / 26 - c / 26
      invariant forall i :: 0 <= i < |s| ==> s[i] == Letter(column)
    {
      s := s + [Letter(c)];
      c := c - 26;
    }
    s := s + [Letter(c)];
  }

  /** No two columns get the same letters. */
  lemma {:induction false} LettersDiffer(i: nat, j: nat)
    requires Letters(i) == Letters(j)
    ensures i == j
  {
    assert |Letters(i)| == i / 26 + 1 && |Letters(j)| == j / 26 + 1;
    assert Letters(i)[0] == Letter(i) && Letters(j)[0] == Letter(j);
  }

  function HeaderName(c: Column, index: nat): (s: string)
    ensures s != ""
  {
    if c.name == "" then Letters(index) + "_col" else c.name
  }

  /** Lower-case letters, underscores, and digits except in front. */
  predicate IsBare(name: string) {
    forall i :: 0 <= i < |name| ==> 'a' <= name[i] <= 'z' || name[i] == '_' || (IsDigit(name[i]) && i != 0)
  }

  /** `std::quoted` doubles the quotes inside. */
  function Escaped(s: string): string {
    if s == "" then "" else (if s[0] == '\"' then ['\"', '\"'] else [s[0]]) + Escaped(s[1..])
  }

  /** `print_name_or_quoted_name`, the blank behind it aside. */
  function Identifier(name: string): string {
    if IsBare(name) then name else ['\"'] + Escaped(name) + ['\"']
  }

  // ---- printing ----

  function Ending(unique: string): string {
    if unique == "" then "\n" else ",\n\t" + ("UNIQUE " + ("(" + unique + ")\n"))
  }

  /** What follows the first tab of the text, from column `i` on. */
  function ColumnsText(columns: seq<Column>, i: nat, unique: string): string
    requires i < |columns|
    decreases |columns| - i
  {
    Identifier(HeaderName(columns[i], i)) + (" " + (columns[i].kind +
      if i + 1 < |columns| then ",\n\t" + ColumnsText(columns, i + 1, unique) else Ending(unique) + ");\n"))
  }

  function TableText(t: Table): string
    requires t.columns != []
  {
    t.phrase + (t.name + (" (\n\t" + ColumnsText(t.columns, 0, t.unique)))
  }

  /** `print_director`: `open_close` around the loop of `direct`. */
  method PrintTable(t: Table) returns (stream: string)
    requires t.columns != []
    ensures stream == TableText(t)
  {
    hide Identifier, HeaderName, Ending;
    var open := t.phrase + t.name + " (\n\t";
    stream := open;
    assert ColumnsText(t.columns, 0, t.unique) == [] + ColumnsText(t.columns, 0, t.unique);
    var index := 0;
    while index < |t.columns|
      invariant index <= |t.columns|
      invariant if index < |t.columns|
        then stream + ColumnsText(t.columns, index, t.unique) == open + ColumnsText(t.columns, 0, t.unique)
        else stream + ");\n" == open + ColumnsText(t.columns, 0, t.unique)
    {
      ghost var was := stream;
      var name := Identifier(HeaderName(t.columns[index], index));
      var separator := if index + 1 < |t.columns| then ",\n\t" else Ending(t.unique);
      ghost var rest := if index + 1 < |t.columns| then ColumnsText(t.columns, index + 1, t.unique) else ");\n";
      stream := stream + name + " " + t.columns[index].kind + separator;
      Flatten(was, name, " ", t.columns[index].kind, separator, rest);
      index := index + 1;
    }
    stream := stream + ");\n";
    Flatten("", t.phrase, t.name, " (\n\t", "", ColumnsText(t.columns, 0, t.unique));
  }

  lemma {:induction false} Flatten(a: string, b: string, c: string, d: string, e: string, f: string)
    ensures a + b + c + d + e + f == a + (b + (c + (d + (e + f))))
    ensures b + c + d + f == b + (c + (d + f))
  {
  }

  // ---- scanning ----

  /** `find_bs`: the first blank outside of quotes; the length when there is none. */
  function BlankEnd(s: string, outside: bool): (e: nat)
    ensures e <= |s|
  {
    if s == "" then 0
    else
      var flag := if s[0] == '\"' then !outside else outside;
      if s[0] == ' ' && flag then 0 else 1 + BlankEnd(s[1..], flag)
  }

  /** The words behind the tabs of `s`, keywords left out; none when a word has no end. */
  function Words(s: string): Option<seq<string>>
    decreases |s|, 0
  {
    var p := Find(s, '\t', 0);
    if p == |s| then Some([]) else Collect(s[p + 1..])
  }

  /** The word that `s` starts with and those behind its tabs. */
  function Collect(s: string): Option<seq<string>>
    decreases |s|, 1
  {
    var e := BlankEnd(s, true);
    if e == |s| then None
    else
      var rest := Words(s);
      if rest.None? then None
      else Some((if s[..e] == "UNIQUE" then [] else [s[..e]]) + rest.value)
  }

  function Joined(words: seq<string>): string {
    if words == [] then "" else Joined(words[..|words| - 1]) + (words[|words| - 1] + ",")
  }

  function Placeholders(n: nat): string {
    if n == 0 then "" else Placeholders(n - 1) + (":v" + NatText(n - 1) + ",")
  }

  /** The last comma becomes a closing parenthesis. */
  function Closed(s: string): string
    requires s != ""
  {
    s[..|s| - 1] + ")"
  }

  /** The statement for the words found. */
  function Statement(prefix: string, head: string, words: seq<string>): string
    requires words != []
  {
    "insert" + (if prefix == "" then "" else " " + prefix) + " into " + head
    + Closed(Joined(words)) + " values (" + Closed(Placeholders(|words|))
  }

  /** What `insert_expr` takes from a printed text whose first part has `size` characters: the text up to the
      parenthesis, and the words. Where the source would read on behind the text, there is no result. */
  function Extracted(text: string, size: nat): Option<(string, seq<string>)>
    requires size <= |text|
  {
    var open := Find(text, '(', size);
    if open == |text| then None
    else
      var words := Words(text[open + 1..]);
      if words.None? then None else Some((text[size..open + 1], words.value))
  }

  /** `insert_expr`: the statement of what it takes; without a column there is none to write. */
  function InsertOf(text: string, size: nat, prefix: string): Option<string>
    requires size <= |text|
  {
    var r := Extracted(text, size);
    if r.None? || r.value.1 == [] then None else Some(Statement(prefix, r.value.0, r.value.1))
  }

  method FindBlank(t: string, start: nat) returns (e: nat)
    requires start <= |t|
    ensures e == start + BlankEnd(t[start..], true)
  {
    var flag := true;
    e := start;
    while e < |t|
      invariant start <= e <= |t|
      invariant start + BlankEnd(t[start..], true) == e + BlankEnd(t[e..], flag)
    {
      assert t[e..][1..] == t[e + 1..];
      if t[e] == '\"' {
        flag := !flag;
      }
      if t[e] == ' ' && flag {
        return;
      }
      e := e + 1;
    }
  }

  lemma {:induction false} FindFrom(t: string, x: char, i: nat)
    requires i <= |t|
    ensures Find(t, x, i) == i + Find(t[i..], x, 0)
    ensures Find(t, x, i) < |t| ==> t[i..][Find(t[i..], x, 0) + 1..] == t[Find(t, x, i) + 1..]
  {
    FindShift(t, x, i, 0);
  }

  lemma {:induction false} FindShift(t: string, x: char, i: nat, k: nat)
    requires i + k <= |t|
    ensures Find(t, x, i + k) == i + Find(t[i..], x, k)
    decreases |t| - i - k
  {
    if i + k < |t| && t[i + k] != x { FindShift(t, x, i, k + 1); }
  }

  method InsertExpr(t: string, size: nat, prefix: string) returns (r: Option<string>)
    requires size <= |t|
    ensures r == InsertOf(t, size, prefix)
  {
    hide Find, BlankEnd, Words, Joined, Placeholders;
    var open := Find(t, '(', size);
    if open == |t| {
      return None;
    }
    var expr := "insert" + (if prefix == "" then "" else " " + prefix) + " into " + t[size..open + 1];
    var names, values := "", "";
    var counter := 0;
    var pos := open;
    ghost var words := [];
    ghost var all := Words(t[open + 1..]);
    NothingYet(all);
    while true
      invariant open <= pos < |t| && counter == |words| && Ahead(all, words, Words(t[pos + 1..]))
      invariant names == Joined(words) && values == Placeholders(counter)
      decreases |t| - pos
    {
      FindFrom(t, '\t', pos + 1);
      WordsAre(t[pos + 1..]);
      ghost var before := t[pos + 1..];
      pos := Find(t, '\t', pos + 1);
      if pos == |t| {
        assert words + [] == words;
        break;
      }
      var e := FindBlank(t, pos + 1);
      if e == |t| {
        return None;
      }
      var next := t[pos + 1..e];
      assert next == t[pos + 1..][..e - pos - 1];
      AheadNext(all, words, next, Words(t[pos + 1..]), Words(before));
      if next != "UNIQUE" {
        JoinedNext(words, next);
        PlaceholdersNext(counter);
        names := names + (next + ",");
        values := values + (":v" + NatText(counter) + ",");
        counter := counter + 1;
        words := words + [next];
      }
    }
    if counter == 0 {
      return None;
    }
    JoinedEnds(words);
    PlaceholdersEnd(counter);
    return Some(expr + Closed(names) + " values (" + Closed(values));
  }

  /** `all` is the words found so far and those still ahead. */
  ghost predicate Ahead(all: Option<seq<string>>, words: seq<string>, ahead: Option<seq<string>>) {
    if ahead.None? then all.None? else all == Some(words + ahead.value)
  }

  lemma {:induction false} AheadNext(all: Option<seq<string>>, words: seq<string>, next: string,
                                     rest: Option<seq<string>>, before: Option<seq<string>>)
    requires Ahead(all, words, before)
    requires before == if rest.None? then None else Some((if next == "UNIQUE" then [] else [next]) + rest.value)
    ensures Ahead(all, if next == "UNIQUE" then words else words + [next], rest)
  {
    if rest.Some? {
      if next == "UNIQUE" {
        assert [] + rest.value == rest.value;
      } else {
        assert words + ([next] + rest.value) == words + [next] + rest.value;
      }
    }
  }

  lemma {:induction false} NothingYet(all: Option<seq<string>>)
    ensures Ahead(all, [], all) && Joined([]) == "" && Placeholders(0) == ""
  {
    assert all.Some? ==> [] + all.value == all.value;
  }

  lemma {:induction false} WordsAre(s: string)
    ensures var p := Find(s, '\t', 0);
      if p == |s| then Words(s) == Some([])
      else
        var r := s[p + 1..];
        var e := BlankEnd(r, true);
        && (e == |r| || Words(r).None? ==> Words(s) == None)
        && (e < |r| && Words(r).Some? ==>
              Words(s) == Some((if r[..e] == "UNIQUE" then [] else [r[..e]]) + Words(r).value))
  {
    hide Find, BlankEnd;
  }

  lemma {:induction false} JoinedNext(words: seq<string>, next: string)
    ensures Joined(words + [next]) == Joined(words) + (next + ",")
  {
    var w := words + [next];
    assert w[..|w| - 1] == words;
  }

  lemma {:induction false} PlaceholdersNext(n: nat)
    ensures Placeholders(n + 1) == Placeholders(n) + (":v" + NatText(n) + ",")
  {
  }

  lemma {:induction false} JoinedEnds(words: seq<string>)
    requires words != []
    ensures Joined(words) != ""
  {
  }

  lemma {:induction false} PlaceholdersEnd(n: nat)
    requires n > 0
    ensures Placeholders(n) != ""
  {
  }

  // ---- the printed text, by examples ----

  /** The first column without a name, the last with one letter, and the first with two. */
  lemma {:induction false} NamesGiven(kind: string)
    ensures HeaderName(Column("", kind), 0) == "a_col" && HeaderName(Column("", kind), 25) == "z_col"
    ensures HeaderName(Column("", kind), 27) == "bb_col" && HeaderName(Column("x", kind), 0) == "x"
  {
    assert Letters(27) == [Letter(27), Letter(27)];
  }

  /** Lower-case letters and underscores, and digits except in front. */
  predicate BareChars(name: string) {
    && (name != "" ==> name[0] == '_' || 97 <= name[0] as int <= 122)
    && forall k :: 0 <= k < |name| ==> name[k] == '_' || 97 <= name[k] as int <= 122 || 48 <= name[k] as int <= 57
  }

  /** What a quoted identifier stands for: the text between the quotes, a doubled quote for one. */
  function Single(s: string): string {
    if s == "" then ""
    else if |s| >= 2 && s[0] == '\"' && s[1] == '\"' then ['\"'] + Single(s[2..])
    else [s[0]] + Single(s[1..])
  }

  lemma {:induction false} SingleEscaped(s: string)
    ensures Single(Escaped(s)) == s
  {
    if s != "" {
      var rest := Escaped(s[1..]);
      SingleEscaped(s[1..]);
      assert s == [s[0]] + s[1..];
      if s[0] == '\"' {
        assert Escaped(s)[2..] == rest;
      } else {
        assert Escaped(s)[1..] == rest && Escaped(s)[0] == s[0];
      }
    }
  }

  /** A name of such characters is printed bare, every other one quoted; either stands for the name. */
  lemma {:induction false} IdentifierMeans(name: string)
    ensures BareChars(name) ==> Identifier(name) == name
    ensures !BareChars(name) ==>
      && |Identifier(name)| >= 2 && Identifier(name)[0] == '\"' && Identifier(name)[|Identifier(name)| - 1] == '\"'
      && Single(Identifier(name)[1..|Identifier(name)| - 1]) == name
  {
    SingleEscaped(name);
    if !BareChars(name) {
      var r := Identifier(name);
      assert r[1..|r| - 1] == Escaped(name);
    }
  }

  /** The whole statement for one column and for two, spelled out. */
  lemma {:induction false} Spelled(phrase: string, name: string, a: Column, b: Column, unique: string)
    ensures var x, y := Identifier(HeaderName(a, 0)), Identifier(HeaderName(b, 1));
      var ending := if unique == "" then "\n);\n" else ",\n\tUNIQUE (" + unique + ")\n);\n";
      && TableText(Table(phrase, name, [a], unique)) == phrase + name + " (\n\t" + x + " " + a.kind + ending
      && TableText(Table(phrase, name, [a, b], unique))
        == phrase + name + " (\n\t" + x + " " + a.kind + ",\n\t" + y + " " + b.kind + ending
  {
    hide Identifier, HeaderName;
    var x, y := Identifier(HeaderName(a, 0)), Identifier(HeaderName(b, 1));
    var ending := if unique == "" then "\n);\n" else ",\n\tUNIQUE (" + unique + ")\n);\n";
    EndingSpelled(unique);
    var one, two := [a], [a, b];
    assert ColumnsText(one, 0, unique) == x + (" " + (a.kind + ending));
    assert ColumnsText(two, 1, unique) == y + (" " + (b.kind + ending));
    hide ColumnsText, Ending;
    Flatten5(phrase, name, x, a.kind, ending);
    Flatten5(phrase, name, x, a.kind, ",\n\t" + (y + (" " + (b.kind + ending))));
    Flatten3(phrase + name + " (\n\t" + x + " " + a.kind, ",\n\t", y, b.kind, ending);
    assert ColumnsText(two, 0, unique) == x + (" " + (a.kind + (",\n\t" + (y + (" " + (b.kind + ending)))))) by {
      FirstOfTwo(a, b, unique);
    }
  }

  lemma {:induction false} FirstOfTwo(a: Column, b: Column, unique: string)
    ensures ColumnsText([a, b], 0, unique)
      == Identifier(HeaderName(a, 0)) + (" " + (a.kind + (",\n\t" + ColumnsText([a, b], 1, unique))))
  {
    hide Identifier, HeaderName, Ending;
  }

  lemma {:induction false} EndingSpelled(unique: string)
    ensures Ending(unique) + ");\n" == if unique == "" then "\n);\n" else ",\n\tUNIQUE (" + unique + ")\n);\n"
  {
  }

  lemma {:induction false} Flatten5(phrase: string, name: string, x: string, kind: string, rest: string)
    ensures phrase + (name + (" (\n\t" + (x + (" " + (kind + rest)))))
      == phrase + name + " (\n\t" + x + " " + kind + rest
  {
  }

  lemma {:induction false} Flatten3(front: string, sep: string, y: string, kind: string, rest: string)
    ensures front + (sep + (y + (" " + (kind + rest)))) == front + sep + y + " " + kind + rest
  {
  }
}
