/**
 The order of text cells, told from the cells: what of a cell is kept, and that the first difference of the kept
 texts decides, the smaller character or the shorter text coming first.
 */
module TextOrder {
  import opened Comparators

  // ---- what is kept of a cell ----

  predicate Quotes(s: string) { forall k :: 0 <= k < |s| ==> s[k] == '\"' }

  predicate Trailing(s: string) { forall k :: 0 <= k < |s| ==> s[k] == '\"' || s[k] == '\t' || s[k] == '\r' }

  /** `kept` is what is left of `raw` without the longest run of quotes in front, and of quotes, tabs and carriage
      returns behind. */
  ghost predicate Keeps(raw: string, kept: string) {
    exists q, t :: KeepsBetween(raw, kept, q, t)
  }

  predicate KeepsBetween(raw: string, kept: string, q: string, t: string) {
    && raw == q + kept + t && Quotes(q) && Trailing(t)
    && (kept != "" ==> kept[0] != '\"' && kept[|kept| - 1] !in "\"\t\r")
  }

  lemma {:induction false} QuotesEndAt(s: string, k: nat)
    requires k <= |s| && (forall i :: 0 <= i < k ==> s[i] == '\"') && (k < |s| ==> s[k] != '\"')
    ensures QuotesEnd(s) == k
  {
    QuotesEndIs(s);
  }

  lemma {:induction false} KeptEndAt(s: string, k: nat)
    requires k <= |s| && (forall i :: k <= i < |s| ==> s[i] in "\"\t\r") && (k > 0 ==> s[k - 1] !in "\"\t\r")
    ensures KeptEnd(s) == k
  {
    KeptEndIs(s);
  }

  lemma {:induction false} Between(raw: string, kept: string, q: string, t: string)
    requires KeepsBetween(raw, kept, q, t)
    ensures Stripped(raw) == kept
  {
    var i, j := |q|, |q| + |kept|;
    assert forall k :: 0 <= k < i ==> raw[k] == q[k];
    assert forall k :: j <= k < |raw| ==> raw[k] == t[k - j];
    assert raw[i..j] == kept;
    if kept == "" {
      AllTrailing(raw);
    } else {
      assert raw[i] == kept[0] && raw[j - 1] == kept[|kept| - 1];
      QuotesEndAt(raw, i);
      KeptEndAt(raw, j);
    }
  }

  lemma {:induction false} AllTrailing(raw: string)
    requires forall k :: 0 <= k < |raw| ==> raw[k] in "\"\t\r"
    ensures Stripped(raw) == ""
  {
    KeptEndAt(raw, 0);
  }

  lemma {:induction false} Cut(raw: string, i: nat, j: nat)
    requires i <= j <= |raw| && (forall k :: 0 <= k < i ==> raw[k] == '\"')
    requires forall k :: j <= k < |raw| ==> raw[k] in "\"\t\r"
    requires i < j ==> raw[i] != '\"' && raw[j - 1] !in "\"\t\r"
    ensures KeepsBetween(raw, raw[i..j], raw[..i], raw[j..])
  {
    assert raw == raw[..i] + raw[i..j] + raw[j..];
  }

  lemma {:induction false} Apart(raw: string) returns (q: string, t: string)
    ensures KeepsBetween(raw, Stripped(raw), q, t)
  {
    hide QuotesEnd, KeptEnd, KeepsBetween;
    QuotesEndIs(raw);
    KeptEndIs(raw);
    var i, j := QuotesEnd(raw), KeptEnd(raw);
    if i >= j {
      q, t := raw[..i], raw[i..];
      Cut(raw, i, i);
      assert raw[i..i] == "";
    } else {
      q, t := raw[..i], raw[j..];
      Cut(raw, i, j);
    }
  }

  /** What is compared of a cell is what is left without its quotes, tabs and carriage returns. */
  lemma {:induction false} KeptExactly(raw: string, kept: string)
    ensures Stripped(raw) == kept <==> Keeps(raw, kept)
  {
    hide Stripped, KeepsBetween;
    if Stripped(raw) == kept {
      var q, t := Apart(raw);
    }
    if Keeps(raw, kept) {
      var q, t :| KeepsBetween(raw, kept, q, t);
      Between(raw, kept, q, t);
    }
  }

  // ---- the order of kept texts ----

  lemma {:induction false} FoldedAt(s: string, fold: char -> char)
    ensures forall k :: 0 <= k < |s| ==> Folded(s, fold)[k] == fold(s[k])
  {
    if s != "" { FoldedAt(s[1..], fold); }
  }

  /** The two texts agree up to `k` when folded. */
  ghost predicate AgreeTo(s: string, t: string, fold: char -> char, k: nat) {
    k <= |s| && k <= |t| && forall i :: 0 <= i < k ==> fold(s[i]) == fold(t[i])
  }

  /** At the first difference the first text has the smaller character, or has ended. */
  ghost predicate Earlier(s: string, t: string, fold: char -> char) {
    exists k: nat :: AgreeTo(s, t, fold, k) && k < |t| && (k == |s| || fold(s[k]) < fold(t[k]))
  }

  /** How far two texts agree. */
  lemma {:induction false} Agreement(s: string, t: string, fold: char -> char, i: nat) returns (k: nat)
    requires AgreeTo(s, t, fold, i)
    ensures AgreeTo(s, t, fold, k) && (k < |s| && k < |t| ==> fold(s[k]) != fold(t[k]))
    decreases |s| - i
  {
    k := i;
    if i < |s| && i < |t| && fold(s[i]) == fold(t[i]) { k := Agreement(s, t, fold, i + 1); }
  }

  lemma {:induction false} DecidedAt(s: string, t: string, fold: char -> char, k: nat)
    requires AgreeTo(s, t, fold, k)
    ensures var r := CompareStrings(Folded(s, fold), Folded(t, fold));
      && (k < |s| && k < |t| && fold(s[k]) < fold(t[k]) ==> r < 0)
      && (k < |s| && k < |t| && fold(s[k]) > fold(t[k]) ==> r > 0)
      && (k == |s| && k < |t| ==> r < 0) && (k == |t| && k < |s| ==> r > 0) && (k == |s| && k == |t| ==> r == 0)
  {
    var x, y := Folded(s, fold), Folded(t, fold);
    FoldedAt(s, fold);
    FoldedAt(t, fold);
    hide Folded, CompareStrings;
    assert x[..k] == y[..k];
    StringsOrder(x, y, k);
    if k == |s| && k == |t| {
      assert x[..k] == x && y[..k] == y;
      StringsEqual(x, y);
    }
  }

  lemma {:induction false} EarlierDecides(s: string, t: string, fold: char -> char)
    ensures CompareStrings(Folded(s, fold), Folded(t, fold)) < 0 <==> Earlier(s, t, fold)
  {
    hide CompareStrings, Folded;
    var k := Agreement(s, t, fold, 0);
    DecidedAt(s, t, fold, k);
    if Earlier(s, t, fold) {
      var j: nat :| AgreeTo(s, t, fold, j) && j < |t| && (j == |s| || fold(s[j]) < fold(t[j]));
      DecidedAt(s, t, fold, j);
    }
  }

  // ---- cells, and sorting by them ----

  /** The column is compared as text: its type is text, or inference is off, or nulls may stand among its cells as
      text. Nulls are texts when --blanks is given or there are none. */
  predicate AsText(m: Mode, a: Cell, b: Cell) {
    && (m.kind == Plain || m.noInference || (m.hasBlanks && m.blanks))
    && (m.blanks || !m.hasBlanks || (!a.isNull && !b.isNull))
  }

  /** Of two text cells the one whose kept text has the smaller character at the first difference, or has ended
      there, compares below the other. */
  lemma {:induction false} TextBefore(m: Mode, a: Cell, b: Cell, x: string, y: string)
    requires AsText(m, a, b) && Keeps(a.raw, x) && Keeps(b.raw, y)
    ensures Compare(m, a, b) < 0 <==> Earlier(x, y, m.fold)
    ensures Compare(m, a, b) > 0 <==> Earlier(y, x, m.fold)
  {
    KeptExactly(a.raw, x);
    KeptExactly(b.raw, y);
    IsTextCompare(m, a, b);
    CompareConverse(m, a, b);
    StringsConverse(Folded(x, m.fold), Folded(y, m.fold));
    hide Compare, Stripped, Folded, CompareStrings, Keeps, Earlier;
    EarlierDecides(x, y, m.fold);
    EarlierDecides(y, x, m.fold);
  }

  lemma {:induction false} IsTextCompare(m: Mode, a: Cell, b: Cell)
    requires AsText(m, a, b)
    ensures Compare(m, a, b) == CompareStrings(Folded(Stripped(a.raw), m.fold), Folded(Stripped(b.raw), m.fold))
  {
    hide CompareStrings, Folded, Stripped;
  }

  /** A sort puts a row before another if their cells agree up to a key on text, and there the kept text comes
      earlier; a reversed sort, if it comes later. */
  lemma {:induction false} SortedByText(keys: seq<SortKey>, a: Row, b: Row, k: nat, x: string, y: string)
    requires Fits(keys, a) && Fits(keys, b) && k < |keys|
    requires forall i :: 0 <= i < k ==> Compare(keys[i].mode, a[keys[i].column], b[keys[i].column]) == 0
    requires AsText(keys[k].mode, a[keys[k].column], b[keys[k].column])
    requires Keeps(a[keys[k].column].raw, x) && Keeps(b[keys[k].column].raw, y)
    ensures Earlier(x, y, keys[k].mode.fold) ==> Chain(keys, a, b) < 0
    ensures Earlier(y, x, keys[k].mode.fold) ==> Chain(keys, a, b) > 0
  {
    hide Compare, Keeps, Earlier, AsText;
    TextBefore(keys[k].mode, a[keys[k].column], b[keys[k].column], x, y);
    FirstDifference(keys, a, b, k);
  }

  /** With a single key on text, a sort puts first exactly the row whose kept text comes earlier. */
  lemma {:induction false} OneTextKey(key: SortKey, a: Row, b: Row, x: string, y: string)
    requires key.column < |a| && key.column < |b| && AsText(key.mode, a[key.column], b[key.column])
    requires Keeps(a[key.column].raw, x) && Keeps(b[key.column].raw, y)
    ensures Fits([key], a) && Fits([key], b) && (Chain([key], a, b) < 0 <==> Earlier(x, y, key.mode.fold))
  {
    hide Compare, Keeps, Earlier, AsText;
    TextBefore(key.mode, a[key.column], b[key.column], x, y);
    FirstDifference([key], a, b, 0);
    if Compare(key.mode, a[key.column], b[key.column]) == 0 { FirstDifference([key], a, b, 1); }
  }
}
