/**
 The hash index of a join (suite/include/cli-hash.h). The unordered map is a sequence of groups searched by equal
 hash and equal key; the hash functions of the C++ library are parameters.
 */
module JoinIndex {
  import opened Comparators

  /** `std::hash` of the types that a cell is hashed as. */
  datatype Hasher = Hasher(flag: bool -> nat, decimal: real -> nat, count: int -> nat, text: string -> nat)

  function NativeHash(kind: Kind, h: Hasher, c: Cell): nat {
    match kind
    case Boolean => h.flag(c.number != 0.0)
    case Number => h.decimal(c.number)
    case Timedelta => h.decimal(c.seconds)
    case Datetime => h.count(c.instant)
    case Day => h.count(c.day)
    case Plain => h.text(c.unquoted)
  }

  function Hash(m: Mode, h: Hasher, c: Cell): nat {
    match Chosen(m)
    case Native => NativeHash(m.kind, h, c)
    case NullsThenNative => if c.isNull then 0 else NativeHash(m.kind, h, c)
    case NullsThenText => if c.isNull then 0 else h.text(c.unquoted)
    case TextOnly => h.text(c.unquoted)
  }

  /** The two cells are compared by their text. */
  predicate ComparedAsText(m: Mode, a: Cell, b: Cell) {
    match Chosen(m)
    case Native => m.kind == Plain
    case NullsThenNative => m.kind == Plain && !a.isNull && !b.isNull
    case NullsThenText => !a.isNull && !b.isNull
    case TextOnly => true
  }

  /** Cells that compare equal have equal hashes, whatever the hash functions are, exactly when they are
      not equal as stripped text while different as unquoted text. */
  lemma {:induction false} HashCongruence(m: Mode, a: Cell, b: Cell)
    requires Compare(m, a, b) == 0
    ensures (forall h :: Hash(m, h, a) == Hash(m, h, b)) <==> (ComparedAsText(m, a, b) ==> a.unquoted == b.unquoted)
  {
    if ComparedAsText(m, a, b) && a.unquoted != b.unquoted {
      var h := Hasher(x => 0, x => 0, x => 0, s => if s == a.unquoted then 0 else 1);
      assert Hash(m, h, a) != Hash(m, h, b);
    } else {
      forall h: Hasher
        ensures Hash(m, h, a) == Hash(m, h, b)
      {
        Congruent(m, h, a, b);
      }
    }
  }

  lemma {:induction false} Congruent(m: Mode, h: Hasher, a: Cell, b: Cell)
    requires Compare(m, a, b) == 0 && (ComparedAsText(m, a, b) ==> a.unquoted == b.unquoted)
    ensures Hash(m, h, a) == Hash(m, h, b)
  {
    hide TextCompare;
  }

  /** A tab behind the text is stripped for the comparison, yet hashed. */
  lemma {:induction false} TabsAreHashed() returns (m: Mode, a: Cell, b: Cell, h: Hasher)
    ensures forall c :: m.fold(c) == c
    ensures Compare(m, a, b) == 0 && Hash(m, h, a) != Hash(m, h, b)
  {
    m := Mode(Plain, false, false, false, c => c);
    a := Cell("x", "x", false, 0.0, 0.0, 0, 0);
    b := Cell("x\t", "x\t", false, 0.0, 0.0, 0, 0);
    h := Hasher(x => 0, x => 0, x => 0, s => |s|);
    assert b.raw[..1] == "x" && KeptEnd("x") == 1 && KeptEnd(b.raw) == 1;
    assert Stripped(a.raw) == "x" == Stripped(b.raw);
    StringsEqual(Folded("x", m.fold), Folded("x", m.fold));
  }

  // ---- the index ----

  /** `unordered_map` takes two keys for the same. */
  predicate Same(m: Mode, h: Hasher, a: Cell, b: Cell) {
    Hash(m, h, a) == Hash(m, h, b) && Compare(m, a, b) == 0
  }

  lemma {:induction false} SameIsEquivalence(m: Mode, h: Hasher, a: Cell, b: Cell, c: Cell)
    ensures Same(m, h, a, a)
    ensures Same(m, h, a, b) <==> Same(m, h, b, a)
    ensures Same(m, h, a, b) && Same(m, h, b, c) ==> Same(m, h, a, c)
  {
    CompareConverse(m, a, a);
    CompareConverse(m, a, b);
    CompareConverse(m, b, c);
    CompareConverse(m, a, c);
    hide Compare, Hash;
    if Same(m, h, a, b) && Same(m, h, b, c) {
      CompareTransitive(m, a, b, c);
      CompareTransitive(m, c, b, a);
    }
  }

  datatype Group = Group(key: Cell, rows: seq<Row>)

  /** `find`: the first group whose key is the same, or the number of groups. */
  function Find(groups: seq<Group>, m: Mode, h: Hasher, key: Cell): (k: nat)
    ensures k <= |groups|
  {
    if groups == [] then 0
    else if Same(m, h, groups[0].key, key) then 0
    else 1 + Find(groups[1..], m, h, key)
  }

  lemma {:induction false} FindIs(groups: seq<Group>, m: Mode, h: Hasher, key: Cell)
    ensures forall i :: 0 <= i < Find(groups, m, h, key) ==> !Same(m, h, groups[i].key, key)
    ensures var k := Find(groups, m, h, key); k < |groups| ==> Same(m, h, groups[k].key, key)
  {
    hide Same;
    if groups != [] { FindIs(groups[1..], m, h, key); }
  }

  /** The place of the group is the only one with its properties. */
  lemma {:induction false} FindAt(groups: seq<Group>, m: Mode, h: Hasher, key: Cell, k: nat)
    requires k <= |groups| && (forall i :: 0 <= i < k ==> !Same(m, h, groups[i].key, key))
    requires k < |groups| ==> Same(m, h, groups[k].key, key)
    ensures Find(groups, m, h, key) == k
  {
    FindIs(groups, m, h, key);
    hide Same, Find;
  }

  function Lookup(groups: seq<Group>, m: Mode, h: Hasher, key: Cell): seq<Row> {
    var k := Find(groups, m, h, key);
    if k < |groups| then groups[k].rows else []
  }

  /** `map_[key].push_back(row)` */
  function Added(groups: seq<Group>, m: Mode, h: Hasher, key: Cell, row: Row): seq<Group> {
    var k := Find(groups, m, h, key);
    if k < |groups| then groups[k := Group(groups[k].key, groups[k].rows + [row])]
    else groups + [Group(key, [row])]
  }

  ghost predicate HasColumn(rows: seq<Row>, column: nat) {
    forall i :: 0 <= i < |rows| ==> column < |rows[i]|
  }

  /** The index of the rows. */
  function Indexed(rows: seq<Row>, column: nat, m: Mode, h: Hasher): seq<Group>
    requires HasColumn(rows, column)
  {
    if rows == [] then []
    else
      var n := |rows| - 1;
      assert HasColumn(rows[..n], column);
      Added(Indexed(rows[..n], column, m, h), m, h, rows[n][column], rows[n])
  }

  /** The rows whose cell is the same key, in file order. */
  function Scanned(rows: seq<Row>, column: nat, m: Mode, h: Hasher, key: Cell): seq<Row>
    requires HasColumn(rows, column)
  {
    if rows == [] then []
    else
      var n := |rows| - 1;
      assert HasColumn(rows[..n], column);
      Scanned(rows[..n], column, m, h, key) + if Same(m, h, rows[n][column], key) then [rows[n]] else []
  }

  /** The rows whose cell compares equal to the key, in file order. */
  function EqualRows(rows: seq<Row>, column: nat, m: Mode, key: Cell): seq<Row>
    requires HasColumn(rows, column)
  {
    if rows == [] then []
    else
      var n := |rows| - 1;
      assert HasColumn(rows[..n], column);
      EqualRows(rows[..n], column, m, key) + if Compare(m, rows[n][column], key) == 0 then [rows[n]] else []
  }

  lemma {:induction false} LookupAdded(groups: seq<Group>, m: Mode, h: Hasher, c: Cell, row: Row, key: Cell)
    ensures Lookup(Added(groups, m, h, c, row), m, h, key)
      == Lookup(groups, m, h, key) + if Same(m, h, c, key) then [row] else []
  {
    var i, k := Find(groups, m, h, c), Find(groups, m, h, key);
    var added := Added(groups, m, h, c, row);
    FindIs(groups, m, h, c);
    FindIs(groups, m, h, key);
    hide Same, Find;
    if i < |groups| {
      SameIsEquivalence(m, h, groups[i].key, c, key);
      SameIsEquivalence(m, h, c, groups[i].key, key);
      FindAt(added, m, h, key, k);
      if k < |groups| { Shared(groups, m, h, c, key, i, k); }
    } else {
      if k < |groups| {
        SameIsEquivalence(m, h, groups[k].key, key, c);
        SameIsEquivalence(m, h, c, key, groups[k].key);
        assert !Same(m, h, groups[k].key, c);
        FindAt(added, m, h, key, k);
      } else {
        FindAt(added, m, h, key, if Same(m, h, c, key) then |groups| else |groups| + 1);
      }
    }
  }

  /** Two keys found in groups are the same exactly when the group is. */
  lemma {:induction false} Shared(groups: seq<Group>, m: Mode, h: Hasher, c: Cell, key: Cell, i: nat, k: nat)
    requires i < |groups| && k < |groups|
    requires Same(m, h, groups[i].key, c) && (forall n :: 0 <= n < i ==> !Same(m, h, groups[n].key, c))
    requires Same(m, h, groups[k].key, key) && (forall n :: 0 <= n < k ==> !Same(m, h, groups[n].key, key))
    ensures i == k <==> Same(m, h, c, key)
  {
    hide Same;
    SameIsEquivalence(m, h, groups[i].key, c, key);
    SameIsEquivalence(m, h, groups[k].key, key, c);
    SameIsEquivalence(m, h, c, groups[i].key, key);
    SameIsEquivalence(m, h, c, key, c);
  }

  /** Looking a key up is scanning for the keys that the map takes for the same. */
  lemma {:induction false} LookupIsScan(rows: seq<Row>, column: nat, m: Mode, h: Hasher, key: Cell)
    requires HasColumn(rows, column)
    ensures Lookup(Indexed(rows, column, m, h), m, h, key) == Scanned(rows, column, m, h, key)
  {
    hide Same, Lookup, Added;
    if rows == [] {
      NoGroups(m, h, key);
    } else {
      var n := |rows| - 1;
      assert HasColumn(rows[..n], column);
      LookupIsScan(rows[..n], column, m, h, key);
      LookupAdded(Indexed(rows[..n], column, m, h), m, h, rows[n][column], rows[n], key);
    }
  }

  lemma {:induction false} NoGroups(m: Mode, h: Hasher, key: Cell)
    ensures Lookup([], m, h, key) == []
  {
  }

  /** Some row compares equal to the key and is hashed differently. */
  ghost predicate Missed(rows: seq<Row>, column: nat, m: Mode, h: Hasher, key: Cell)
    requires HasColumn(rows, column)
  {
    exists i :: 0 <= i < |rows|
      && Compare(m, rows[i][column], key) == 0 && Hash(m, h, rows[i][column]) != Hash(m, h, key)
  }

  lemma {:induction false} ScanLength(rows: seq<Row>, column: nat, m: Mode, h: Hasher, key: Cell)
    requires HasColumn(rows, column)
    ensures |Scanned(rows, column, m, h, key)| <= |EqualRows(rows, column, m, key)|
    ensures |Scanned(rows, column, m, h, key)| == |EqualRows(rows, column, m, key)|
      <==> !Missed(rows, column, m, h, key)
    ensures !Missed(rows, column, m, h, key) ==> Scanned(rows, column, m, h, key) == EqualRows(rows, column, m, key)
  {
    hide Compare, Hash;
    if rows != [] {
      var n := |rows| - 1;
      assert HasColumn(rows[..n], column);
      ScanLength(rows[..n], column, m, h, key);
      MissedNext(rows, column, m, h, key);
      hide Missed;
    }
  }

  lemma {:induction false} MissedNext(rows: seq<Row>, column: nat, m: Mode, h: Hasher, key: Cell)
    requires HasColumn(rows, column) && rows != []
    ensures var n := |rows| - 1;
      && HasColumn(rows[..n], column)
      && (Missed(rows, column, m, h, key) <==>
          || Missed(rows[..n], column, m, h, key)
          || (Compare(m, rows[n][column], key) == 0 && Hash(m, h, rows[n][column]) != Hash(m, h, key)))
  {
    hide Compare, Hash;
    var n := |rows| - 1;
    var front := rows[..n];
    assert forall i :: 0 <= i < n ==> front[i] == rows[i];
  }

  /** The index agrees with a linear scan by comparison, in file order, exactly when no row of the file
      compares equal to the key and is hashed differently. */
  lemma {:induction false} LookupIsLinearScan(rows: seq<Row>, column: nat, m: Mode, h: Hasher, key: Cell)
    requires HasColumn(rows, column)
    ensures Lookup(Indexed(rows, column, m, h), m, h, key) == EqualRows(rows, column, m, key)
      <==> !Missed(rows, column, m, h, key)
  {
    hide Missed, Lookup, Indexed, Scanned, EqualRows;
    LookupIsScan(rows, column, m, h, key);
    ScanLength(rows, column, m, h, key);
  }

  /** Every row that compares equal to the key as text has its unquoted text. */
  ghost predicate SameTexts(rows: seq<Row>, column: nat, m: Mode, key: Cell)
    requires HasColumn(rows, column)
  {
    forall i :: 0 <= i < |rows| ==>
      Compare(m, rows[i][column], key) == 0 && ComparedAsText(m, rows[i][column], key) ==>
        rows[i][column].unquoted == key.unquoted
  }

  /** Whatever the hash functions are, the index agrees with a linear scan by comparison, in file order, exactly
      when every row that compares equal to the key as text has its unquoted text. */
  lemma {:induction false} LookupForEveryHash(rows: seq<Row>, column: nat, m: Mode, key: Cell)
    requires HasColumn(rows, column)
    ensures (forall h :: Lookup(Indexed(rows, column, m, h), m, h, key) == EqualRows(rows, column, m, key))
      <==> SameTexts(rows, column, m, key)
  {
    hide Compare, Hash, Lookup, Indexed, EqualRows, ComparedAsText;
    if SameTexts(rows, column, m, key) {
      forall h: Hasher
        ensures Lookup(Indexed(rows, column, m, h), m, h, key) == EqualRows(rows, column, m, key)
      {
        LookupIsLinearScan(rows, column, m, h, key);
        NothingMissed(rows, column, m, h, key);
        hide Missed;
      }
    } else {
      var h := MissedBySome(rows, column, m, key);
      LookupIsLinearScan(rows, column, m, h, key);
      hide Missed;
      assert Lookup(Indexed(rows, column, m, h), m, h, key) != EqualRows(rows, column, m, key);
    }
  }

  lemma {:induction false} NothingMissed(rows: seq<Row>, column: nat, m: Mode, h: Hasher, key: Cell)
    requires HasColumn(rows, column) && SameTexts(rows, column, m, key)
    ensures !Missed(rows, column, m, h, key)
  {
    hide Compare, Hash, ComparedAsText;
    forall i | 0 <= i < |rows| && Compare(m, rows[i][column], key) == 0
      ensures Hash(m, h, rows[i][column]) == Hash(m, h, key)
    {
      Congruent(m, h, rows[i][column], key);
    }
  }

  lemma {:induction false} MissedBySome(rows: seq<Row>, column: nat, m: Mode, key: Cell) returns (h: Hasher)
    requires HasColumn(rows, column) && !SameTexts(rows, column, m, key)
    ensures Missed(rows, column, m, h, key)
  {
    hide Compare, Hash, ComparedAsText;
    var i :| 0 <= i < |rows| && Compare(m, rows[i][column], key) == 0
      && ComparedAsText(m, rows[i][column], key) && rows[i][column].unquoted != key.unquoted;
    HashCongruence(m, rows[i][column], key);
    h :| Hash(m, h, rows[i][column]) != Hash(m, h, key);
  }

  /** The cells of the column are compared by the values of its type. */
  predicate Typed(m: Mode) { m.kind != Plain && !m.noInference && !(m.hasBlanks && m.blanks) }

  /** A typed column never misses a row. */
  lemma {:induction false} TypedTexts(rows: seq<Row>, column: nat, m: Mode, key: Cell)
    requires HasColumn(rows, column) && Typed(m)
    ensures SameTexts(rows, column, m, key)
  {
    hide Compare;
    assert forall i :: 0 <= i < |rows| ==> !ComparedAsText(m, rows[i][column], key);
  }

  // ---- the groups partition the rows ----

  /** Keys of different groups differ, and no group is empty. */
  ghost predicate Separate(groups: seq<Group>, m: Mode, h: Hasher) {
    && (forall i :: 0 <= i < |groups| ==> groups[i].rows != [])
    && (forall i, j :: 0 <= i < j < |groups| ==> !Same(m, h, groups[i].key, groups[j].key))
  }

  function RowCount(groups: seq<Group>): nat {
    if groups == [] then 0 else RowCount(groups[..|groups| - 1]) + |groups[|groups| - 1].rows|
  }

  lemma {:induction false} AddedSeparate(groups: seq<Group>, m: Mode, h: Hasher, key: Cell, row: Row)
    requires Separate(groups, m, h)
    ensures Separate(Added(groups, m, h, key, row), m, h)
  {
    FindIs(groups, m, h, key);
    hide Same, Find;
  }

  lemma {:induction false} RowCountGrows(groups: seq<Group>, k: nat, row: Row)
    requires k < |groups|
    ensures RowCount(groups[k := Group(groups[k].key, groups[k].rows + [row])]) == RowCount(groups) + 1
  {
    var n := |groups| - 1;
    var g := groups[k := Group(groups[k].key, groups[k].rows + [row])];
    if k < n {
      assert g[..n] == groups[..n][k := g[k]];
      RowCountGrows(groups[..n], k, row);
    } else {
      assert g[..n] == groups[..n];
    }
  }

  lemma {:induction false} AddedCount(groups: seq<Group>, m: Mode, h: Hasher, key: Cell, row: Row)
    ensures RowCount(Added(groups, m, h, key, row)) == RowCount(groups) + 1
  {
    var k := Find(groups, m, h, key);
    hide Find;
    if k < |groups| {
      RowCountGrows(groups, k, row);
    } else {
      var g := groups + [Group(key, [row])];
      assert g[..|g| - 1] == groups;
    }
  }

  lemma {:induction false} IndexShape(rows: seq<Row>, column: nat, m: Mode, h: Hasher)
    requires HasColumn(rows, column)
    ensures var groups := Indexed(rows, column, m, h); Separate(groups, m, h) && RowCount(groups) == |rows|
  {
    hide Separate, Added;
    if rows == [] {
      NoneSeparate(m, h);
    } else {
      var n := |rows| - 1;
      assert HasColumn(rows[..n], column);
      IndexShape(rows[..n], column, m, h);
      var groups := Indexed(rows[..n], column, m, h);
      AddedSeparate(groups, m, h, rows[n][column], rows[n]);
      AddedCount(groups, m, h, rows[n][column], rows[n]);
    }
  }

  lemma {:induction false} NoneSeparate(m: Mode, h: Hasher)
    ensures Separate([], m, h)
  {
  }

  /** Every group holds exactly the rows with its key, no two groups share a key, no group is empty, and
      together they hold as many rows as the file. */
  lemma {:induction false} GroupsPartition(rows: seq<Row>, column: nat, m: Mode, h: Hasher, i: nat)
    requires HasColumn(rows, column) && i < |Indexed(rows, column, m, h)|
    ensures var groups := Indexed(rows, column, m, h);
      && Separate(groups, m, h) && RowCount(groups) == |rows|
      && groups[i].rows == Scanned(rows, column, m, h, groups[i].key)
  {
    var groups := Indexed(rows, column, m, h);
    IndexShape(rows, column, m, h);
    LookupIsScan(rows, column, m, h, groups[i].key);
    SameIsEquivalence(m, h, groups[i].key, groups[i].key, groups[i].key);
    hide Same, Indexed, Scanned, RowCount;
    FindAt(groups, m, h, groups[i].key, i);
  }

  // ---- the index and the joins as they run ----

  class CompromiseHash {
    var map_: seq<Group>
    const mode: Mode
    const hasher: Hasher

    /** Reads the rows of a file with a body. */
    constructor (rows: seq<Row>, column: nat, mode: Mode, hasher: Hasher)
      requires HasColumn(rows, column)
      ensures map_ == Indexed(rows, column, mode, hasher)
      ensures this.mode == mode && this.hasher == hasher
    {
      this.mode, this.hasher := mode, hasher;
      map_ := [];
      new;
      hide Added;
      for i := 0 to |rows|
        invariant HasColumn(rows[..i], column) && map_ == Indexed(rows[..i], column, mode, hasher)
      {
        var row, key := rows[i], rows[i][column];
        assert rows[..i + 1][..i] == rows[..i] && rows[..i + 1][i] == row;
        map_ := Added(map_, mode, hasher, key, row);
      }
      assert rows[..|rows|] == rows;
    }

    /** `hash().find(key)`, `None` standing for `end()`. */
    method Search(key: Cell) returns (r: seq<Row>)
      ensures r == Lookup(map_, mode, hasher, key)
    {
      var k := 0;
      assert map_[0..] == map_;
      while k < |map_| && !Same(mode, hasher, map_[k].key, key)
        invariant k <= |map_| && Find(map_, mode, hasher, key) == k + Find(map_[k..], mode, hasher, key)
      {
        assert map_[k..][1..] == map_[k + 1..];
        k := k + 1;
      }
      r := if k < |map_| then map_[k].rows else [];
    }
  }
}
