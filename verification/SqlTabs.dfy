/**
 Exactly when the INSERT extraction finds the printed columns: what tabs inside of names and an opening
 parenthesis in the table's name do to it.
 */
module SqlTabs {
  import opened Text
  import opened SqlInsert
  import opened SqlRoundTrip

  predicate Starts(s: string, w: string) { |w| <= |s| && s[..|w|] == w }

  /** Every tab among the first `b` characters stands before the keyword and a blank. */
  predicate Quiet(s: string, b: nat)
    requires b <= |s|
    decreases b
  {
    b == 0 || ((s[0] == '\t' ==> Starts(s[1..], "UNIQUE ")) && Quiet(s[1..], b - 1))
  }

  predicate AllQuiet(s: string) { Quiet(s, |s|) }

  /** Every tab in a name, a type or the constraint stands before the keyword and a blank. */
  ghost predicate QuietColumns(columns: seq<Column>, i: nat)
    requires i <= |columns|
  {
    forall k :: i <= k < |columns| ==> AllQuiet(columns[k].name) && AllQuiet(columns[k].kind)
  }

  // ---- tabs that are not those between the columns ----

  lemma {:induction false} TablessQuiet(s: string, b: nat)
    requires b <= |s| && forall i :: 0 <= i < b ==> s[i] != '\t'
    ensures Quiet(s, b)
    decreases b
  {
    if b > 0 { TablessQuiet(s[1..], b - 1); }
  }

  lemma {:induction false} QuietSplit(s: string, a: nat, b: nat)
    requires a <= b <= |s|
    ensures Quiet(s, b) <==> Quiet(s, a) && Quiet(s[a..], b - a)
    decreases a
  {
    if a == 0 {
      assert s[0..] == s;
    } else {
      QuietSplit(s[1..], a - 1, b - 1);
      assert s[1..][a - 1..] == s[a..];
    }
  }

  /** A character that no keyword goes on with. */
  predicate Breaks(c: char) { c !in "UNIQUE " && c != '\t' }

  lemma {:induction false} KeywordChars(s: string, i: nat)
    ensures i < 7 && i < |s| && Starts(s, "UNIQUE ") ==> !Breaks(s[i])
  {
    var w := "UNIQUE ";
    if i < 7 && i < |s| && Starts(s, w) {
      assert s[i] == s[..7][i] == w[i];
      assert w[i] in w;
    }
  }

  lemma {:induction false} StartsJoin(x: string, y: string, w: string)
    ensures |w| <= |x| ==> (Starts(x + y, w) <==> Starts(x, w))
  {
    if |w| <= |x| { assert (x + y)[..|w|] == x[..|w|]; }
  }

  /** What stands behind a breaking character does not make a tab before it quiet. */
  lemma {:induction false} QuietPiece(x: string, y: string)
    requires y != "" && Breaks(y[0])
    ensures Quiet(x + y, |x|) <==> AllQuiet(x)
  {
    if x != "" {
      var t := x[1..];
      assert (x + y)[1..] == t + y && (x + y)[0] == x[0];
      QuietPiece(t, y);
      StartsJoin(t, y, "UNIQUE ");
      if |t| < 7 { NoSpan(t, y); }
    }
  }

  lemma {:induction false} NoSpan(t: string, y: string)
    requires |t| < 7 && y != "" && Breaks(y[0])
    ensures !Starts(t + y, "UNIQUE ") && !Starts(t, "UNIQUE ")
  {
    var s := t + y;
    assert s[|t|] == y[0];
    KeywordChars(s, |t|);
  }

  /** The word behind a tab is the keyword exactly when the keyword and a blank stand there. */
  lemma {:induction false} KeywordBehind(r: string)
    ensures Starts(r, "UNIQUE ") <==> BlankEnd(r, true) < |r| && r[..BlankEnd(r, true)] == "UNIQUE"
  {
    var w, e := "UNIQUE", BlankEnd(r, true);
    if Starts(r, "UNIQUE ") {
      assert r == r[..7] + r[7..] == w + (" " + r[7..]);
      assert forall i :: 0 <= i < |w| ==> w[i] != ' ' && w[i] != '\"';
      BareEnd(w, r[7..]);
    }
    if e < |r| && r[..e] == w {
      BlankThere(r, true);
      assert r[..7] == r[..e] + [r[e]] == "UNIQUE ";
    }
  }

  lemma {:induction false} BlankThere(s: string, outside: bool)
    requires BlankEnd(s, outside) < |s|
    ensures s[BlankEnd(s, outside)] == ' '
  {
    var flag := if s[0] == '\"' then !outside else outside;
    if !(s[0] == ' ' && flag) { BlankThere(s[1..], flag); }
  }

  /** `r` is `base`, or by some words longer, or there is no end to a word. */
  predicate Behind(r: Option<seq<string>>, quiet: bool, base: Option<seq<string>>) {
    if quiet then r == base else r.None? || (base.Some? && |r.value| > |base.value|)
  }

  lemma {:induction false} SkipTabless(s: string, b: nat)
    requires b <= |s| && forall i :: 0 <= i < b ==> s[i] != '\t'
    ensures Words(s) == Words(s[b..])
    ensures Find(s, '\t', 0) == b + Find(s[b..], '\t', 0)
  {
    FindFrom(s, '\t', b);
    FindSkip(s, 0, b);
    hide Collect;
  }

  lemma {:induction false} FindSkip(s: string, i: nat, b: nat)
    requires i <= b <= |s| && forall k :: i <= k < b ==> s[k] != '\t'
    ensures Find(s, '\t', i) == Find(s, '\t', b)
    decreases b - i
  {
    if i < b { FindSkip(s, i + 1, b); }
  }

  /** Tabs that are quiet add no word; any other adds one, or runs off the end. */
  lemma {:induction false} SkipTabs(s: string, b: nat)
    requires b <= |s|
    ensures Behind(Words(s), Quiet(s, b), Words(s[b..]))
    decreases |s|
  {
    if forall i :: 0 <= i < b ==> s[i] != '\t' {
      SkipTabless(s, b);
      TablessQuiet(s, b);
    } else {
      var p := FirstTabAt(s, b);
      hide Quiet, Words;
      SkipTabs(s[p + 1..], b - p - 1);
      SkipFromTab(s, p, b);
    }
  }

  lemma {:induction false} SkipFromTab(s: string, p: nat, b: nat)
    requires p < b <= |s| && s[p] == '\t' && forall i :: 0 <= i < p ==> s[i] != '\t'
    requires var r := s[p + 1..]; Behind(Words(r), Quiet(r, b - p - 1), Words(r[b - p - 1..]))
    ensures Behind(Words(s), Quiet(s, b), Words(s[b..]))
  {
    var tail, r := s[p..], s[p + 1..];
    SkipTabless(s, p);
    TablessQuiet(s, p);
    hide Words;
    QuietSplit(s, p, b);
    QuietTab(tail, b - p);
    hide Quiet, Starts;
    assert tail[1..] == r && r[b - p - 1..] == s[b..];
    TabWord(tail, Quiet(r, b - p - 1), Words(s[b..]));
  }

  lemma {:induction false} QuietTab(s: string, b: nat)
    requires 0 < b <= |s| && s[0] == '\t'
    ensures Quiet(s, b) <==> Starts(s[1..], "UNIQUE ") && Quiet(s[1..], b - 1)
  {
  }

  lemma {:induction false} FirstTabAt(s: string, b: nat) returns (p: nat)
    requires b <= |s| && exists i :: 0 <= i < b && s[i] == '\t'
    ensures p < b && s[p] == '\t' && forall i :: 0 <= i < p ==> s[i] != '\t'
  {
    p := 0;
    while s[p] != '\t'
      invariant p < b && forall i :: 0 <= i < p ==> s[i] != '\t'
      decreases b - p
    {
      p := p + 1;
    }
  }

  lemma {:induction false} TabWord(s: string, quiet: bool, base: Option<seq<string>>)
    requires s != "" && s[0] == '\t' && Behind(Words(s[1..]), quiet, base)
    ensures Behind(Words(s), Starts(s[1..], "UNIQUE ") && quiet, base)
  {
    var r := s[1..];
    KeywordBehind(r);
    WordsAre(s);
    hide Words, BlankEnd, Starts;
    assert Find(s, '\t', 0) == 0;
    assert Words(r).Some? ==> [] + Words(r).value == Words(r).value;
  }

  // ---- names with tabs as they are printed ----

  lemma {:induction false} EscapedStarts(s: string, w: string)
    requires forall i :: 0 <= i < |w| ==> w[i] != '\"'
    ensures Starts(Escaped(s), w) <==> Starts(s, w)
  {
    if w != "" && s != "" {
      var e := Escaped(s);
      assert e != "" && e[0] == s[0];
      if s[0] != '\"' {
        EscapedStarts(s[1..], w[1..]);
        assert e[1..] == Escaped(s[1..]);
      }
      hide Escaped, Starts;
      StartsTail(e, w);
      StartsTail(s, w);
    }
  }

  lemma {:induction false} StartsTail(s: string, w: string)
    requires s != "" && w != ""
    ensures Starts(s, w) <==> s[0] == w[0] && Starts(s[1..], w[1..])
  {
    if |w| <= |s| {
      assert s[..|w|] == [s[0]] + s[1..][..|w| - 1];
      assert w == [w[0]] + w[1..];
    }
  }

  lemma {:induction false} EscapedQuiet(s: string)
    ensures AllQuiet(Escaped(s)) <==> AllQuiet(s)
  {
    if s != "" {
      var e, rest := Escaped(s), Escaped(s[1..]);
      EscapedQuiet(s[1..]);
      var w := "UNIQUE ";
      assert forall i :: 0 <= i < |w| ==> w[i] != '\"';
      EscapedStarts(s[1..], w);
      if s[0] == '\"' {
        assert e == ['\"', '\"'] + rest;
        hide Escaped;
        PrefixQuiet(['\"', '\"'], rest);
      } else {
        assert e == [s[0]] + rest;
        assert e[1..] == rest;
        hide Escaped;
      }
    }
  }

  lemma {:induction false} IdentifierQuiet(name: string)
    ensures AllQuiet(Identifier(name)) <==> AllQuiet(name)
  {
    hide AllQuiet, Escaped;
    if !IsBare(name) {
      assert Identifier(name) == ['\"'] + (Escaped(name) + ['\"']);
      EscapedQuiet(name);
      QuoteEnd(Escaped(name));
      PrefixQuiet(['\"'], Escaped(name) + ['\"']);
    }
  }

  lemma {:induction false} QuoteEnd(x: string)
    ensures AllQuiet(x + ['\"']) <==> AllQuiet(x)
  {
    var y := ['\"'];
    QuietPiece(x, y);
    QuietSplit(x + y, |x|, |x| + 1);
    assert (x + y)[|x|..] == y;
    assert Quiet(y, 1) by { TablessQuiet(y, 1); }
    hide Quiet;
  }

  lemma {:induction false} LettersQuiet(index: nat)
    ensures AllQuiet(Letters(index) + "_col") && AllQuiet("")
  {
    TablessQuiet(Letters(index) + "_col", |Letters(index)| + 4);
  }

  /** The text of a column, up to what follows its type. */
  lemma {:induction false} PieceQuiet(c: Column, index: nat)
    ensures AllQuiet(Identifier(HeaderName(c, index)) + (" " + c.kind)) <==> AllQuiet(c.name) && AllQuiet(c.kind)
  {
    var name := HeaderName(c, index);
    LettersQuiet(index);
    assert AllQuiet(name) <==> AllQuiet(c.name);
    IdentifierQuiet(name);
    hide Quiet, Letters;
    if IsBare(name) {
      BareQuiet(name, c.kind);
    } else {
      QuotedQuiet(name, c.kind);
    }
  }

  lemma {:induction false} BareQuiet(name: string, kind: string)
    requires IsBare(name)
    ensures AllQuiet(name) && (AllQuiet(name + (" " + kind)) <==> AllQuiet(kind))
  {
    var s := name + (" " + kind);
    TablessQuiet(name, |name|);
    TablessQuiet(s, |name| + 1);
    QuietSplit(s, |name| + 1, |s|);
    assert s[|name| + 1..] == kind;
    hide Quiet;
  }

  lemma {:induction false} QuotedQuiet(name: string, kind: string)
    requires !IsBare(name)
    ensures AllQuiet(Identifier(name) + (" " + kind)) <==> AllQuiet(Identifier(name)) && AllQuiet(kind)
  {
    var x := ['\"'] + Escaped(name);
    var y := ['\"'] + (" " + kind);
    assert Identifier(name) == x + ['\"'] && Identifier(name) + (" " + kind) == x + y;
    hide Escaped, Identifier;
    QuietPiece(x, y);
    QuoteEnd(x);
    QuietSplit(x + y, |x|, |x + y|);
    assert (x + y)[|x|..] == y;
    TablessQuiet(y, 2);
    QuietSplit(y, 2, |y|);
    assert y[2..] == kind;
    hide Quiet;
  }

  // ---- the words of the columns ----

  /** The words are exactly the expected ones, or more, or there is no end to a word. */
  predicate Counted(r: Option<seq<string>>, quiet: bool, expected: seq<string>) {
    if quiet then r == Some(expected) else r.None? || |r.value| > |expected|
  }

  /** Behind a piece without the column separator comes the next column. */
  lemma {:induction false} PieceCounted(x: string, rest: string, quiet: bool, expected: seq<string>)
    requires Counted(Collect(rest), quiet, expected)
    ensures Counted(Words(x + (",\n" + (['\t'] + rest))), AllQuiet(x) && quiet, expected)
  {
    var y := ",\n" + (['\t'] + rest);
    var s := x + y;
    QuietPiece(x, y);
    SkipTabs(s, |x|);
    assert s[|x|..] == y;
    assert NoTab(",\n");
    WordsSkip(",\n", rest);
    hide Words, Collect, Quiet;
  }

  lemma {:induction false} LastCounted(x: string, y: string)
    requires y != "" && Breaks(y[0]) && NoTab(y)
    ensures Counted(Words(x + y), AllQuiet(x), [])
  {
    QuietPiece(x, y);
    SkipTabs(x + y, |x|);
    assert (x + y)[|x|..] == y;
    WordsNone(y);
    hide Words, Quiet;
  }

  /** The constraint: its keyword is skipped, its text holds no column. */
  lemma {:induction false} UniqueCounted(unique: string)
    ensures Counted(Collect("UNIQUE " + ("(" + unique + ")\n") + ");\n"), AllQuiet(unique), [])
  {
    var word, inner, y := "UNIQUE", "(" + unique, ")\n" + ");\n";
    var s := "UNIQUE " + ("(" + unique + ")\n") + ");\n";
    assert s == word + (" " + (inner + y));
    assert forall i :: 0 <= i < |word| ==> word[i] != ' ' && word[i] != '\"';
    BareEnd(word, inner + y);
    var x := word + (" " + inner);
    assert s == x + y && y[0] == ')' && NoTab(y);
    LastCounted(x, y);
    PrefixQuiet("UNIQUE (", unique);
    assert x == "UNIQUE (" + unique;
    hide Words, BlankEnd, Quiet;
    CollectKeyword(word, inner + y);
  }

  lemma {:induction false} PrefixQuiet(a: string, b: string)
    requires NoTab(a)
    ensures AllQuiet(a + b) <==> AllQuiet(b)
  {
    var s := a + b;
    TablessQuiet(s, |a|);
    QuietSplit(s, |a|, |s|);
    assert s[|a|..] == b;
    hide Quiet;
  }

  lemma {:induction false} CollectKeyword(word: string, rest: string)
    requires word == "UNIQUE" && BlankEnd(word + (" " + rest), true) == |word|
    ensures Collect(word + (" " + rest)) == Words(word + (" " + rest))
  {
    var s := word + (" " + rest);
    assert s[..|word|] == word;
    hide BlankEnd, Words;
    assert Words(s).Some? ==> [] + Words(s).value == Words(s).value;
  }

  lemma {:induction false} EndingCounted(x: string, unique: string)
    ensures Counted(Words(x + (Ending(unique) + ");\n")), AllQuiet(x) && AllQuiet(unique), [])
  {
    if unique == "" {
      var y := Ending(unique) + ");\n";
      assert y == "\n);\n" && y[0] == '\n' && NoTab(y);
      assert AllQuiet(unique);
      hide Words, Quiet;
      LastCounted(x, y);
    } else {
      var rest := "UNIQUE " + ("(" + unique + ")\n") + ");\n";
      UniqueCounted(unique);
      EndingText(x, unique);
      hide Words, Collect, AllQuiet, Counted, Ending;
      Assoc(x, ",\n", ['\t'] + rest);
      PieceCounted(x, rest, AllQuiet(unique), []);
    }
  }

  /** One column: its identifier in front of the words behind it. */
  lemma {:induction false} ColumnCounted(name: string, kind: string, tail: string, quiet: bool, words: seq<string>)
    requires Counted(Words(Identifier(name) + (" " + kind) + tail), quiet, words)
    ensures Counted(Collect(Identifier(name) + (" " + (kind + tail))), quiet, [Identifier(name)] + words)
  {
    var word := Identifier(name);
    var s := word + (" " + (kind + tail));
    NeverKeyword(name);
    IdentifierEnd(name, kind + tail);
    assert word + (" " + kind) + tail == s && s[..|word|] == word;
    hide Words, BlankEnd, Identifier;
  }

  /** What is scanned from column `i` on: the identifiers, exactly when all tabs are quiet. */
  lemma {:induction false} ColumnsCounted(columns: seq<Column>, i: nat, unique: string)
    requires i < |columns|
    ensures Counted(Collect(ColumnsText(columns, i, unique)), QuietColumns(columns, i) && AllQuiet(unique),
                    Identifiers(columns, i))
    decreases |columns| - i
  {
    var name, kind := HeaderName(columns[i], i), columns[i].kind;
    var x := Identifier(name) + (" " + kind);
    PieceQuiet(columns[i], i);
    hide Words, Collect, Identifier, HeaderName, Ending, AllQuiet, Counted;
    assert QuietColumns(columns, i) <==> AllQuiet(x) && QuietColumns(columns, i + 1);
    if i + 1 == |columns| {
      EndingCounted(x, unique);
      ColumnCounted(name, kind, Ending(unique) + ");\n", AllQuiet(x) && AllQuiet(unique), []);
    } else {
      var next := ColumnsText(columns, i + 1, unique);
      var quiet := QuietColumns(columns, i + 1) && AllQuiet(unique);
      ColumnsCounted(columns, i + 1, unique);
      PieceCounted(x, next, quiet, Identifiers(columns, i + 1));
      TabText(next);
      ColumnCounted(name, kind, ",\n\t" + next, AllQuiet(x) && quiet, Identifiers(columns, i + 1));
    }
  }

  lemma {:induction false} TabText(next: string)
    ensures ",\n\t" + next == ",\n" + (['\t'] + next)
  {
    assert ",\n\t" == ",\n" + ['\t'];
  }

  // ---- the table ----

  /** A parenthesis in the table's name ends it too early. */
  lemma {:induction false} OpenTooEarly(phrase: string, name: string, rest: string)
    requires '(' in name
    ensures var t := phrase + (name + rest);
      |phrase| <= |t| && (Extracted(t, |phrase|).Some? ==> |Extracted(t, |phrase|).value.0| <= |name|)
  {
    var t := phrase + (name + rest);
    var i :| 0 <= i < |name| && name[i] == '(';
    assert t[|phrase| + i] == '(';
    FoundBefore(t, |phrase|, |phrase| + i);
    hide Words;
  }

  lemma {:induction false} FoundBefore(s: string, i: nat, k: nat)
    requires i <= k < |s| && s[k] == '('
    ensures Find(s, '(', i) <= k
    decreases k - i
  {
    if i < k && s[i] != '(' { FoundBefore(s, i + 1, k); }
  }

  lemma {:induction false} Opened(phrase: string, name: string, rest: string)
    requires '(' !in name
    ensures var t := phrase + (name + (" (\n\t" + rest));
      |phrase| <= |t| && Extracted(t, |phrase|)
        == if Collect(rest).None? then None else Some((name + " (", Collect(rest).value))
  {
    hide Find, Words, Collect;
    OpenFound(phrase, name, rest);
    assert NoTab("\n");
    WordsSkip("\n", rest);
  }

  /** From the text printed for a table, the table's name and exactly the printed identifiers are found if and
      only if there is no '(' in the table's name and every tab in a name, a type or the constraint stands
      before the keyword and a blank. */
  lemma {:induction false} InsertExactly(t: Table)
    requires t.columns != []
    ensures |TableText(t)| >= |t.phrase|
    ensures Extracted(TableText(t), |t.phrase|) == Some((t.name + " (", Identifiers(t.columns, 0)))
      <==> '(' !in t.name && QuietColumns(t.columns, 0) && AllQuiet(t.unique)
  {
    var rest := ColumnsText(t.columns, 0, t.unique);
    ColumnsCounted(t.columns, 0, t.unique);
    hide Find, Words, Collect, ColumnsText, Identifiers, Extracted, AllQuiet, QuietColumns;
    if '(' in t.name {
      OpenTooEarly(t.phrase, t.name, " (\n\t" + rest);
    } else {
      Opened(t.phrase, t.name, rest);
    }
  }

  /** The statement then has the table, its identifiers in order, and one placeholder for each. */
  lemma {:induction false} InsertRecovers(t: Table, prefix: string)
    requires t.columns != [] && '(' !in t.name && QuietColumns(t.columns, 0) && AllQuiet(t.unique)
    ensures |TableText(t)| >= |t.phrase| && Identifiers(t.columns, 0) != []
    ensures InsertOf(TableText(t), |t.phrase|, prefix)
      == Some(Statement(prefix, t.name + " (", Identifiers(t.columns, 0)))
  {
    SomeIdentifier(t.columns);
    hide Statement, TableText, Identifiers, Extracted, AllQuiet, QuietColumns;
    InsertExactly(t);
  }

  lemma {:induction false} SomeIdentifier(columns: seq<Column>)
    requires columns != []
    ensures Identifiers(columns, 0) != []
  {
  }

  /** Texts without a tab are quiet, and so is a name whose tab stands before the keyword. */
  lemma {:induction false} QuietTexts(s: string)
    ensures NoTab(s) ==> AllQuiet(s)
    ensures AllQuiet("x\tUNIQUE y") && !AllQuiet("a\tb")
  {
    if NoTab(s) { TablessQuiet(s, |s|); }
    hide AllQuiet;
    KeywordTab();
    LetterTab();
  }

  lemma {:induction false} KeywordTab()
    ensures AllQuiet("x\tUNIQUE y")
  {
    var x := "x\tUNIQUE y";
    TablessQuiet(x[2..], 8);
    assert x[1..][1..] == x[2..] && x[2..][..7] == "UNIQUE ";
    assert Quiet(x[1..], 9);
  }

  lemma {:induction false} LetterTab()
    ensures !AllQuiet("a\tb")
  {
    var y := "a\tb";
    assert y[1..][0] == '\t' && |y[1..][1..]| == 1;
    assert !Quiet(y[1..], 2);
  }
}
