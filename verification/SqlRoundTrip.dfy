/**
 The statement that csvSql builds from a printed CREATE TABLE has exactly the printed columns.
 */
module SqlRoundTrip {
  import opened Text
  import opened SqlInsert

  ghost predicate NoTab(s: string) { forall i :: 0 <= i < |s| ==> s[i] != '\t' }

  /** The identifiers of the columns, as printed, from `i` on. */
  function Identifiers(columns: seq<Column>, i: nat): seq<string>
    requires i <= |columns|
    decreases |columns| - i
  {
    if i == |columns| then [] else [Identifier(HeaderName(columns[i], i))] + Identifiers(columns, i + 1)
  }

  // ---- an identifier ends at the blank behind it ----

  lemma {:induction false} BareEnd(name: string, rest: string)
    requires forall i :: 0 <= i < |name| ==> name[i] != ' ' && name[i] != '\"'
    ensures BlankEnd(name + (" " + rest), true) == |name|
  {
    var s := name + (" " + rest);
    if name != "" {
      assert s[1..] == name[1..] + (" " + rest) && s[0] == name[0];
      BareEnd(name[1..], rest);
    }
  }

  lemma {:induction false} StepInside(c: char, rest: string)
    requires c != '\"'
    ensures BlankEnd([c] + rest, false) == 1 + BlankEnd(rest, false)
  {
    assert ([c] + rest)[1..] == rest;
  }

  lemma {:induction false} StepOverPair(rest: string)
    ensures BlankEnd(['\"', '\"'] + rest, false) == 2 + BlankEnd(rest, false)
  {
    var s := ['\"', '\"'] + rest;
    assert s[1..] == ['\"'] + rest && s[1..][1..] == rest;
  }

  /** Inside of quotes, doubled quotes open and close again before the next character. */
  lemma {:induction false} InnerEnd(s: string, rest: string)
    ensures BlankEnd(Escaped(s) + rest, false) == |Escaped(s)| + BlankEnd(rest, false)
  {
    if s == "" {
      assert Escaped(s) + rest == rest;
    } else {
      var head := if s[0] == '\"' then ['\"', '\"'] else [s[0]];
      var inner := Escaped(s[1..]) + rest;
      InnerEnd(s[1..], rest);
      assert Escaped(s) == head + Escaped(s[1..]);
      hide BlankEnd, Escaped;
      assert head + Escaped(s[1..]) + rest == head + inner;
      if s[0] == '\"' { StepOverPair(inner); } else { StepInside(s[0], inner); }
    }
  }

  lemma {:induction false} QuotedEnd(name: string, rest: string)
    ensures BlankEnd(['\"'] + Escaped(name) + ['\"'] + (" " + rest), true) == |Escaped(name)| + 2
  {
    var after := ['\"'] + (" " + rest);
    var s := ['\"'] + Escaped(name) + ['\"'] + (" " + rest);
    assert s[1..] == Escaped(name) + after;
    InnerEnd(name, after);
    assert after[1..] == " " + rest;
    assert (" " + rest)[0] == ' ';
  }

  lemma {:induction false} IdentifierEnd(name: string, rest: string)
    ensures BlankEnd(Identifier(name) + (" " + rest), true) == |Identifier(name)|
  {
    if IsBare(name) { BareEnd(name, rest); } else { QuotedEnd(name, rest); }
  }

  /** No printed identifier is the keyword: a column named UNIQUE is quoted. */
  lemma {:induction false} NeverKeyword(name: string)
    ensures Identifier(name) != "UNIQUE"
  {
    var keyword := "UNIQUE";
    assert keyword[0] == 'U';
    assert IsBare(name) && name != "" ==> name[0] != 'U';
    assert !IsBare(name) ==> Identifier(name)[0] == '\"';
  }

  // ---- the words behind the tabs ----

  lemma {:induction false} FirstTab(a: string, rest: string)
    requires NoTab(a)
    ensures Find(a + (['\t'] + rest), '\t', 0) == |a|
    ensures (a + (['\t'] + rest))[|a| + 1..] == rest && |a| < |a + (['\t'] + rest)|
  {
    var s := a + (['\t'] + rest);
    assert s[|a|] == '\t' && forall i :: 0 <= i < |a| ==> s[i] == a[i];
    FindIs(s, '\t', 0, |a|);
  }

  lemma {:induction false} WordsSkip(a: string, rest: string)
    requires NoTab(a)
    ensures Words(a + (['\t'] + rest)) == Collect(rest)
  {
    FirstTab(a, rest);
    hide Find, Collect;
  }

  lemma {:induction false} WordsNone(a: string)
    requires NoTab(a)
    ensures Words(a) == Some([])
  {
    FindIs(a, '\t', 0, |a|);
  }

  lemma {:induction false} EndingText(a: string, unique: string)
    requires unique != ""
    ensures a + (Ending(unique) + ");\n") == a + ",\n" + (['\t'] + ("UNIQUE " + ("(" + unique + ")\n") + ");\n"))
  {
    assert ",\n\t" == ",\n" + ['\t'];
    Regroup(a, ",\n", ['\t'], "UNIQUE " + ("(" + unique + ")\n"), ");\n");
  }

  lemma {:induction false} Regroup<T>(a: seq<T>, b: seq<T>, c: seq<T>, d: seq<T>, e: seq<T>)
    ensures a + (b + c + d + e) == a + b + (c + (d + e))
  {
  }

  lemma {:induction false} OpenFound(phrase: string, name: string, rest: string)
    requires '(' !in name
    ensures var t := phrase + (name + (" (\n\t" + rest));
      && Find(t, '(', |phrase|) == |phrase| + |name| + 1 < |t|
      && t[|phrase|..|phrase| + |name| + 2] == name + " (" && t[|phrase| + |name| + 2..] == "\n" + (['\t'] + rest)
  {
    var t := phrase + (name + (" (\n\t" + rest));
    var p := |phrase| + |name|;
    assert t[|phrase|..p] == name;
    assert forall k :: |phrase| <= k < p ==> t[k] == name[k - |phrase|];
    assert t[p] == ' ' && t[p + 1] == '(' && t[p + 2] == '\n' && t[p + 3] == '\t' && t[p + 4..] == rest;
    FindIs(t, '(', |phrase|, p + 1);
  }

  // ---- the statement ----

  /** Words separated by commas. */
  function CommaList(words: seq<string>): string
    requires words != []
  {
    if |words| == 1 then words[0] else words[0] + ("," + CommaList(words[1..]))
  }

  /** `:v0` to `:v(n-1)` */
  function Marks(n: nat): (r: seq<string>)
    ensures |r| == n && forall k :: 0 <= k < n ==> r[k] == ":v" + NatText(k)
  {
    if n == 0 then [] else Marks(n - 1) + [":v" + NatText(n - 1)]
  }

  lemma {:induction false} CommaListEnd(words: seq<string>, word: string)
    requires words != []
    ensures CommaList(words + [word]) == CommaList(words) + ("," + word)
  {
    var all := words + [word];
    if |words| == 1 {
      assert all[1..] == [word];
    } else {
      assert all[1..] == words[1..] + [word];
      CommaListEnd(words[1..], word);
      assert words[0] + ("," + (CommaList(words[1..]) + ("," + word)))
        == words[0] + ("," + CommaList(words[1..])) + ("," + word);
    }
  }

  lemma {:induction false} JoinedIsList(words: seq<string>)
    requires words != []
    ensures Joined(words) == CommaList(words) + ","
  {
    var front, last := words[..|words| - 1], words[|words| - 1];
    assert words == front + [last];
    if front == [] {
      assert Joined(words) == "" + (last + ",") == last + ",";
    } else {
      JoinedIsList(front);
      CommaListEnd(front, last);
      hide CommaList;
      assert Joined(words) == CommaList(front) + "," + (last + ",");
    }
  }

  lemma {:induction false} PlaceholdersAreMarks(n: nat)
    ensures Placeholders(n) == Joined(Marks(n))
  {
    if n > 0 {
      PlaceholdersAreMarks(n - 1);
      JoinedNext(Marks(n - 1), ":v" + NatText(n - 1));
      assert ":v" + NatText(n - 1) + "," == (":v" + NatText(n - 1)) + ",";
    }
  }

  lemma {:induction false} ClosedList(words: seq<string>)
    requires words != []
    ensures Joined(words) != "" && Closed(Joined(words)) == CommaList(words) + ")"
  {
    JoinedIsList(words);
    hide CommaList;
    assert (CommaList(words) + ",")[..|CommaList(words)|] == CommaList(words);
  }

  /** The statement lists the words and as many placeholders, separated by commas. */
  lemma {:induction false} StatementText(prefix: string, head: string, words: seq<string>)
    requires words != []
    ensures Statement(prefix, head, words)
      == "insert" + (if prefix == "" then "" else " " + prefix) + " into " + head
         + (CommaList(words) + ")") + " values (" + (CommaList(Marks(|words|)) + ")")
  {
    ClosedList(words);
    PlaceholdersAreMarks(|words|);
    ClosedList(Marks(|words|));
    hide CommaList, Marks, Joined, Placeholders, Closed;
  }

  /** As many identifiers as columns, each that of its column. */
  lemma {:induction false} IdentifierAt(columns: seq<Column>, i: nat, k: nat)
    requires i <= k < |columns|
    ensures |Identifiers(columns, i)| == |columns| - i
    ensures Identifiers(columns, i)[k - i] == Identifier(HeaderName(columns[k], k))
    decreases |columns| - i
  {
    hide Identifier, HeaderName;
    if i < k {
      IdentifierAt(columns, i + 1, k);
    } else {
      IdentifiersEnd(columns, i + 1);
    }
  }

  lemma {:induction false} IdentifiersEnd(columns: seq<Column>, i: nat)
    requires i <= |columns|
    ensures |Identifiers(columns, i)| == |columns| - i
    decreases |columns| - i
  {
    if i < |columns| { IdentifiersEnd(columns, i + 1); }
  }

  /** Two names are printed alike only if they are the same. */
  lemma {:induction false} EscapedDiffers(s: string, t: string)
    requires Escaped(s) == Escaped(t)
    ensures s == t
  {
    if s != "" && t != "" {
      var x, y := Escaped(s[1..]), Escaped(t[1..]);
      var a := if s[0] == '\"' then 2 else 1;
      assert Escaped(s)[0] == s[0] && Escaped(t)[0] == t[0];
      assert Escaped(s)[a..] == x && Escaped(t)[a..] == y;
      EscapedDiffers(s[1..], t[1..]);
      assert s == [s[0]] + s[1..] && t == [t[0]] + t[1..];
    }
  }

  lemma {:induction false} IdentifierDiffers(s: string, t: string)
    requires Identifier(s) == Identifier(t) && s != "" && t != ""
    ensures s == t
  {
    assert (IsBare(s) ==> s[0] != '\"') && (IsBare(t) ==> t[0] != '\"');
    assert (!IsBare(s) ==> Identifier(s)[0] == '\"') && (!IsBare(t) ==> Identifier(t)[0] == '\"');
    if !IsBare(s) && !IsBare(t) {
      var a, b := ['\"'] + Escaped(s) + ['\"'], ['\"'] + Escaped(t) + ['\"'];
      assert a[1..|a| - 1] == Escaped(s) && b[1..|b| - 1] == Escaped(t);
      EscapedDiffers(s, t);
    }
  }
}
