/**
 * The values XTable keeps and derives, as functions: the lookup tables
 * setData builds, the column views, the rank setColumnOrder sorts by, and the
 * row operations behind removeRow, moveRow, getRow, serializeRow and
 * updateCell. The lemmas state what each promises.
 */
module TableSpec {
  import opened Wrappers
  import opened Ordering
  import opened Cells

  // ----- setData: the lookup tables, built column by column -----

  /** The ids of the column definitions, in input order. */
  function Ids(cols: seq<Column>): (ids: seq<string>)
    ensures |ids| == |cols|
    ensures forall i :: 0 <= i < |cols| ==> ids[i] == cols[i].id
  {
    if cols == [] then [] else Ids(cols[..|cols| - 1]) + [cols[|cols| - 1].id]
  }

  /** `colMap`: each column stored under its id, a later column overwriting an earlier one. */
  function ColMapOf(cols: seq<Column>): (m: map<string, Column>)
    ensures cols != [] ==> cols[|cols| - 1].id in m && m[cols[|cols| - 1].id] == cols[|cols| - 1]
  {
    if cols == [] then map[]
    else ColMapOf(cols[..|cols| - 1])[cols[|cols| - 1].id := cols[|cols| - 1]]
  }

  /** `colIDLookup`: each label mapped to its column's id, later columns overwriting. */
  function LookupOf(cols: seq<Column>): (m: map<string, string>)
    ensures cols != [] ==> cols[|cols| - 1].name in m && m[cols[|cols| - 1].name] == cols[|cols| - 1].id
  {
    if cols == [] then map[]
    else LookupOf(cols[..|cols| - 1])[cols[|cols| - 1].name := cols[|cols| - 1].id]
  }

  /** `colType`: each id mapped to the type inferred from the first row's value. */
  function TypesOf(cols: seq<Column>, first: Row): (m: map<string, ColType>)
    ensures cols != [] ==> var c := cols[|cols| - 1]; c.id in m && m[c.id] == InferType(Cell(first, c.id))
  {
    if cols == [] then map[]
    else
      var c := cols[|cols| - 1];
      TypesOf(cols[..|cols| - 1], first)[c.id := InferType(Cell(first, c.id))]
  }

  /** No later column has the same id as column i. */
  ghost predicate LastWithId(cols: seq<Column>, i: int)
    requires 0 <= i < |cols|
  {
    forall j :: i < j < |cols| ==> cols[j].id != cols[i].id
  }

  /** No later column has the same label as column i. */
  ghost predicate LastWithName(cols: seq<Column>, i: int)
    requires 0 <= i < |cols|
  {
    forall j :: i < j < |cols| ==> cols[j].name != cols[i].name
  }

  ghost predicate UniqueIds(cols: seq<Column>)
  {
    forall i, j :: 0 <= i < j < |cols| ==> cols[i].id != cols[j].id
  }

  lemma IdsSnoc(init: seq<Column>, last: Column)
    ensures (set c | c in init + [last] :: c.id) == (set c | c in init :: c.id) + {last.id}
  {
    assert forall c :: c in init + [last] <==> c in init || c == last;
  }

  lemma NamesSnoc(init: seq<Column>, last: Column)
    ensures (set c | c in init + [last] :: c.name) == (set c | c in init :: c.name) + {last.name}
  {
    assert forall c :: c in init + [last] <==> c in init || c == last;
  }

  /**
   * colMap holds exactly the input ids; each maps to a column with that id,
   * and to the column itself when no later column repeats the id.
   */
  lemma {:induction false} ColMapOfSpec(cols: seq<Column>)
    ensures ColMapOf(cols).Keys == set c | c in cols :: c.id
    ensures forall id :: id in ColMapOf(cols) ==> ColMapOf(cols)[id].id == id
    ensures forall i :: 0 <= i < |cols| && LastWithId(cols, i) ==> ColMapOf(cols)[cols[i].id] == cols[i]
    decreases |cols|
  {
    if cols != [] {
      var init, last := cols[..|cols| - 1], cols[|cols| - 1];
      ColMapOfSpec(init);
      assert cols == init + [last];
      IdsSnoc(init, last);
      var m, m0 := ColMapOf(cols), ColMapOf(init);
      assert m == m0[last.id := last];
      assert m.Keys == m0.Keys + {last.id};
      forall id | id in m
        ensures m[id].id == id
      {
        if id != last.id {
          assert id in m0 && m[id] == m0[id];
        }
      }
      forall i | 0 <= i < |cols| - 1 && LastWithId(cols, i)
        ensures m[cols[i].id] == cols[i]
      {
        assert cols[i] == init[i];
        assert LastWithId(init, i);
      }
    }
  }

  /**
   * colIDLookup holds exactly the input labels; a label not repeated later
   * maps to its own column's id.
   */
  lemma {:induction false} LookupOfSpec(cols: seq<Column>)
    ensures LookupOf(cols).Keys == set c | c in cols :: c.name
    ensures forall i :: 0 <= i < |cols| && LastWithName(cols, i) ==> LookupOf(cols)[cols[i].name] == cols[i].id
    decreases |cols|
  {
    if cols != [] {
      var init, last := cols[..|cols| - 1], cols[|cols| - 1];
      LookupOfSpec(init);
      assert cols == init + [last];
      NamesSnoc(init, last);
      forall i | 0 <= i < |cols| - 1 && LastWithName(cols, i)
        ensures LookupOf(cols)[cols[i].name] == cols[i].id
      {
        assert LastWithName(init, i);
      }
    }
  }

  /**
   * Type inference: colType holds exactly the input ids, and each column's
   * type is the one inferred from its value in the first row, whatever the
   * other rows hold.
   */
  lemma {:induction false} TypesOfSpec(cols: seq<Column>, first: Row)
    ensures TypesOf(cols, first).Keys == set c | c in cols :: c.id
    ensures forall i :: 0 <= i < |cols| ==> TypesOf(cols, first)[cols[i].id] == InferType(Cell(first, cols[i].id))
    decreases |cols|
  {
    if cols != [] {
      var init, last := cols[..|cols| - 1], cols[|cols| - 1];
      TypesOfSpec(init, first);
      assert cols == init + [last];
      IdsSnoc(init, last);
    }
  }

  /** `colType[id]`: undefined (None) for an id that is not a column. */
  function LookupType(colType: map<string, ColType>, id: string): (t: Option<ColType>)
    ensures t.Some? <==> id in colType
    ensures t.Some? ==> t.value == colType[id]
  {
    if id in colType then Some(colType[id]) else None
  }

  // ----- getColumnNames, getColumns -----

  /** `columns.map(c => colMap[c].label)` */
  function NamesOf(columns: seq<string>, colMap: map<string, Column>): (names: seq<string>)
    requires forall c :: c in columns ==> c in colMap
    ensures |names| == |columns|
    ensures forall i :: 0 <= i < |columns| ==> names[i] == colMap[columns[i]].name
  {
    seq(|columns|, i requires 0 <= i < |columns| => colMap[columns[i]].name)
  }

  /** `columns.map(c => ({id: c, label: colMap[c].label}))` */
  function ColumnsOf(columns: seq<string>, colMap: map<string, Column>): (view: seq<Column>)
    requires forall c :: c in columns ==> c in colMap
    ensures |view| == |columns|
    ensures forall i :: 0 <= i < |columns| ==> view[i] == Column(columns[i], colMap[columns[i]].name)
  {
    seq(|columns|, i requires 0 <= i < |columns| => Column(columns[i], colMap[columns[i]].name))
  }

  /** With distinct ids, colMap maps each input id to its own column. */
  lemma ColMapAt(cols: seq<Column>, i: int)
    requires UniqueIds(cols) && 0 <= i < |cols|
    ensures cols[i].id in ColMapOf(cols) && ColMapOf(cols)[cols[i].id] == cols[i]
  {
    ColMapOfSpec(cols);
    assert cols[i] in cols;
    assert LastWithId(cols, i);
  }

  /** Every loaded id is a key of colMap. */
  lemma IdsInColMap(cols: seq<Column>)
    ensures forall c :: c in Ids(cols) ==> c in ColMapOf(cols)
  {
    var ids := Ids(cols);
    ColMapOfSpec(cols);
    forall c | c in ids
      ensures c in ColMapOf(cols)
    {
      var i :| 0 <= i < |ids| && ids[i] == c;
      assert cols[i] in cols;
    }
  }

  /** Right after a load with distinct ids, getColumns gives back the input columns in order. */
  lemma ColumnsAfterLoad(cols: seq<Column>)
    requires UniqueIds(cols)
    ensures forall c :: c in Ids(cols) ==> c in ColMapOf(cols)
    ensures ColumnsOf(Ids(cols), ColMapOf(cols)) == cols
  {
    IdsInColMap(cols);
    var view := ColumnsOf(Ids(cols), ColMapOf(cols));
    forall i | 0 <= i < |cols|
      ensures view[i] == cols[i]
    {
      ColMapAt(cols, i);
    }
  }

  /** Right after a load with distinct ids, getColumnNames gives the input labels in order. */
  lemma NamesAfterLoad(cols: seq<Column>)
    requires UniqueIds(cols)
    ensures forall c :: c in Ids(cols) ==> c in ColMapOf(cols)
    ensures NamesOf(Ids(cols), ColMapOf(cols)) == seq(|cols|, i requires 0 <= i < |cols| => cols[i].name)
  {
    IdsInColMap(cols);
    var names := NamesOf(Ids(cols), ColMapOf(cols));
    forall i | 0 <= i < |cols|
      ensures names[i] == cols[i].name
    {
      ColMapAt(cols, i);
    }
  }


  /** `cols.find(c => c.id === name)`; an undefined name (None) matches no column. */
  function FindColumn(cols: seq<Column>, name: Option<string>): (c: Option<Column>)
    ensures c.Some? ==> name.Some? && c.value in cols && c.value.id == name.value
    ensures c.None? <==> name.None? || forall i :: 0 <= i < |cols| ==> cols[i].id != name.value
  {
    if name.None? || cols == [] then None
    else if cols[0].id == name.value then Some(cols[0])
    else FindColumn(cols[1..], name)
  }

  /** Looking a column up in getColumns' view finds one exactly when its id is displayed. */
  lemma {:induction false} FindColumnOf(columns: seq<string>, colMap: map<string, Column>, name: Option<string>)
    requires forall c :: c in columns ==> c in colMap
    ensures var found := FindColumn(ColumnsOf(columns, colMap), name);
      && (found.Some? <==> name.Some? && name.value in columns)
      && (found.Some? ==> found.value.id == name.value)
  {
    var view := ColumnsOf(columns, colMap);
    if name.Some? && name.value in columns {
      var i :| 0 <= i < |columns| && columns[i] == name.value;
      assert view[i].id == name.value;
    }
  }

  // ----- sortBy -----

  /**
   * sortBy's result on rows that all have a sort key: a permutation of the
   * rows, ordered by key (non-decreasing when ascending, non-increasing
   * otherwise), rows with equal keys in their previous relative order.
   */
  lemma SortRowsSpec(rows: seq<Row>, t: Option<ColType>, column: string, ascending: bool)
    requires Keyed(rows, t, column)
    ensures var r := SortSpec(rows, RowKey(t, column), ascending);
      && multiset(r) == multiset(rows)
      && Keyed(r, t, column)
      && (forall i, j :: 0 <= i < j < |r| ==>
            var ki, kj := SortKey(t, Cell(r[i], column)).value, SortKey(t, Cell(r[j], column)).value;
            if ascending then LessEq(ki, kj) else LessEq(kj, ki))
      && (forall k :: Ties(r, RowKey(t, column), k) == Ties(rows, RowKey(t, column), k))
  {
    var r := SortSpec(rows, RowKey(t, column), ascending);
    SortSpecCorrect(rows, RowKey(t, column), ascending);
    forall i | 0 <= i < |r| ensures SortKey(t, Cell(r[i], column)).Some? {
      assert r[i] in multiset(rows);
      var j :| 0 <= j < |rows| && rows[j] == r[i];
    }
  }

  // ----- setColumnOrder -----

  /** The rank setColumnOrder gives an id that `order` does not list. */
  const Unranked: int := 100000000

  /** `order.indexOf(x)`: the first index holding x, or -1. */
  function IndexOf(order: seq<string>, x: string): (i: int)
    ensures -1 <= i < |order|
    ensures 0 <= i ==> order[i] == x && forall j :: 0 <= j < i ==> order[j] != x
    ensures i == -1 <==> x !in order
  {
    if order == [] then -1
    else if order[0] == x then 0
    else
      var i := IndexOf(order[1..], x);
      if i < 0 then -1 else i + 1
  }

  /** `ia < 0 ? 100000000 : ia` */
  function Rank(order: seq<string>, x: string): (r: int)
    ensures x in order ==> 0 <= r < |order| && order[r] == x && forall j :: 0 <= j < r ==> order[j] != x
    ensures x !in order ==> r == Unranked
  {
    var i := IndexOf(order, x);
    if i < 0 then Unranked else i
  }

  /**
   * setColumnOrder's sort key. The source ranks `colMap[a].id`, which is a
   * itself for every id in `columns` (XTable.Valid).
   */
  function RankKey(order: seq<string>): (key: string -> Key)
    ensures forall a, b :: Less(key(a), key(b)) <==> Rank(order, a) < Rank(order, b)
  {
    c => IntKey(Rank(order, c))
  }

  /** The source's comparator `oa - ob` has the sign of Compare on the rank keys, ascending. */
  lemma RankComparator(order: seq<string>, a: string, b: string)
    ensures Rank(order, a) - Rank(order, b) < 0 <==> Compare(RankKey(order)(a), RankKey(order)(b), true) < 0
    ensures Rank(order, a) - Rank(order, b) == 0 <==> Compare(RankKey(order)(a), RankKey(order)(b), true) == 0
  {
  }

  /** The ids of cols that `order` does not list, in cols order. */
  function Absent(cols: seq<string>, order: seq<string>): (r: seq<string>)
    ensures forall i :: 0 <= i < |r| ==> r[i] in cols && r[i] !in order
  {
    if cols == [] then []
    else Absent(cols[..|cols| - 1], order) + (if cols[|cols| - 1] in order then [] else [cols[|cols| - 1]])
  }

  /** With fewer than 100000000 listed ids, the ids ranked Unranked are exactly the unlisted ones. */
  lemma {:induction false} UnrankedTiesAreAbsent(cols: seq<string>, order: seq<string>)
    requires |order| <= Unranked
    ensures Ties(cols, RankKey(order), IntKey(Unranked)) == Absent(cols, order)
    decreases |cols|
  {
    if cols != [] {
      UnrankedTiesAreAbsent(cols[..|cols| - 1], order);
    }
  }

  /**
   * setColumnOrder: the result is a permutation of the columns; listed ids
   * come first, ordered by their first index in `order`; unlisted ids
   * follow in their previous relative order.
   */
  lemma SetColumnOrderSpec(cols: seq<string>, order: seq<string>)
    requires |order| <= Unranked
    ensures var r := SortSpec(cols, RankKey(order), true);
      && multiset(r) == multiset(cols)
      && (forall i, j :: 0 <= i < j < |r| && r[j] in order ==>
            r[i] in order && IndexOf(order, r[i]) <= IndexOf(order, r[j]))
      && Absent(r, order) == Absent(cols, order)
  {
    var r := SortSpec(cols, RankKey(order), true);
    SortSpecCorrect(cols, RankKey(order), true);
    forall i, j | 0 <= i < j < |r| && r[j] in order
      ensures r[i] in order && IndexOf(order, r[i]) <= IndexOf(order, r[j])
    {
      assert LessEq(RankKey(order)(r[i]), RankKey(order)(r[j]));
    }
    UnrankedTiesAreAbsent(r, order);
    UnrankedTiesAreAbsent(cols, order);
  }

  /** `[a, b, c]` with order `["b", "a"]` becomes `[b, a, c]`. */
  lemma SetColumnOrderExample()
    ensures SortSpec(["a", "b", "c"], RankKey(["b", "a"]), true) == ["b", "a", "c"]
  {
    var key := RankKey(["b", "a"]);
    assert key("a") == IntKey(1) && key("b") == IntKey(0) && key("c") == IntKey(Unranked);
    assert ["a", "b", "c"][..2] == ["a", "b"] && ["a", "b"][..1] == ["a"] && ["a"][..0] == [];
    assert SortSpec(["a"], key, true) == Insert([], "a", key, true) == ["a"];
    assert ["a"][..0] == [];
    assert SortSpec(["a", "b"], key, true) == Insert(["a"], "b", key, true) == ["b", "a"];
    assert ["b", "a"][..1] == ["b"];
    assert Insert(["b", "a"], "c", key, true) == ["b", "a", "c"];
  }

  // ----- rows: find, removeRow, moveRow -----

  /** `rows.find(row => row.id === id)`, as an index: the first row with that id. */
  function FindRow(rows: seq<Row>, id: Value): (i: Option<nat>)
    ensures i.Some? ==> i.value < |rows| && IdOf(rows[i.value]) == id
    ensures i.Some? ==> forall j :: 0 <= j < i.value ==> IdOf(rows[j]) != id
    ensures i.None? <==> forall j :: 0 <= j < |rows| ==> IdOf(rows[j]) != id
  {
    if rows == [] then None
    else if IdOf(rows[0]) == id then Some(0)
    else match FindRow(rows[1..], id)
      case Some(i) => Some(i + 1)
      case None => None
  }

  /** `rows.filter(d => d.id !== id)` */
  function Without(rows: seq<Row>, id: Value): (r: seq<Row>)
    ensures |r| <= |rows|
  {
    if rows == [] then []
    else Without(rows[..|rows| - 1], id) + (if IdOf(rows[|rows| - 1]) != id then [rows[|rows| - 1]] else [])
  }

  /** How many rows carry this id. */
  function CountId(rows: seq<Row>, id: Value): nat
  {
    if rows == [] then 0
    else CountId(rows[..|rows| - 1], id) + (if IdOf(rows[|rows| - 1]) == id then 1 else 0)
  }

  ghost predicate UniqueRowIds(rows: seq<Row>)
  {
    forall i, j :: 0 <= i < j < |rows| ==> IdOf(rows[i]) != IdOf(rows[j])
  }

  /** removeRow keeps exactly the rows whose id differs, unchanged. */
  lemma {:induction false} WithoutMembers(rows: seq<Row>, id: Value)
    ensures forall row :: row in Without(rows, id) <==> row in rows && IdOf(row) != id
    decreases |rows|
  {
    if rows != [] {
      WithoutMembers(rows[..|rows| - 1], id);
      assert rows == rows[..|rows| - 1] + [rows[|rows| - 1]];
    }
  }

  /** removeRow keeps the survivors' relative order: it distributes over concatenation. */
  lemma {:induction false} WithoutConcat(a: seq<Row>, b: seq<Row>, id: Value)
    ensures Without(a + b, id) == Without(a, id) + Without(b, id)
    decreases |b|
  {
    if b == [] {
      assert a + b == a;
    } else {
      var init, last := b[..|b| - 1], b[|b| - 1];
      WithoutConcat(a, init, id);
      assert (a + b)[..|a + b| - 1] == a + init;
    }
  }

  /** removeRow of an id no row carries is a no-op. */
  lemma {:induction false} WithoutAbsent(rows: seq<Row>, id: Value)
    requires FindRow(rows, id).None?
    ensures Without(rows, id) == rows
    decreases |rows|
  {
    if rows != [] {
      WithoutAbsent(rows[..|rows| - 1], id);
      assert rows == rows[..|rows| - 1] + [rows[|rows| - 1]];
    }
  }

  /** removeRow shortens the rows by the number of rows carrying the id. */
  lemma {:induction false} WithoutLength(rows: seq<Row>, id: Value)
    ensures |Without(rows, id)| == |rows| - CountId(rows, id)
    decreases |rows|
  {
    if rows != [] {
      WithoutLength(rows[..|rows| - 1], id);
    }
  }

  lemma {:induction false} CountIdZero(rows: seq<Row>, id: Value)
    ensures CountId(rows, id) == 0 <==> forall j :: 0 <= j < |rows| ==> IdOf(rows[j]) != id
    decreases |rows|
  {
    if rows != [] {
      var init := rows[..|rows| - 1];
      CountIdZero(init, id);
      assert forall j :: 0 <= j < |init| ==> init[j] == rows[j];
    }
  }

  lemma {:induction false} CountIdUnique(rows: seq<Row>, id: Value)
    requires UniqueRowIds(rows)
    ensures CountId(rows, id) <= 1
    decreases |rows|
  {
    if rows != [] {
      var init := rows[..|rows| - 1];
      assert UniqueRowIds(init);
      CountIdUnique(init, id);
      if IdOf(rows[|rows| - 1]) == id {
        CountIdZero(init, id);
      }
    }
  }

  /** With distinct ids, removeRow removes one row when the id is present and none otherwise. */
  lemma RemoveUniqueRow(rows: seq<Row>, id: Value)
    requires UniqueRowIds(rows)
    ensures |Without(rows, id)| == |rows| - (if FindRow(rows, id).Some? then 1 else 0)
    ensures FindRow(Without(rows, id), id).None?
  {
    WithoutLength(rows, id);
    CountIdUnique(rows, id);
    CountIdZero(rows, id);
    WithoutMembers(rows, id);
    var r := Without(rows, id);
    forall j | 0 <= j < |r| ensures IdOf(r[j]) != id {
      assert r[j] in r;
    }
  }

  function RemoveAt<T>(s: seq<T>, i: nat): seq<T>
    requires i < |s|
  {
    s[..i] + s[i + 1..]
  }

  function InsertAt<T>(s: seq<T>, i: nat, x: T): seq<T>
    requires i <= |s|
  {
    s[..i] + [x] + s[i..]
  }

  /** `s.splice(to, 0, s.splice(from, 1)[0])` for in-range indices. */
  function Move<T>(s: seq<T>, from: nat, to: nat): (r: seq<T>)
    requires from < |s| && to < |s|
    ensures |r| == |s| && r[to] == s[from]
  {
    InsertAt(RemoveAt(s, from), to, s[from])
  }

  /**
   * moveRow keeps the length and the multiset of rows, puts the row from
   * `from` at `to`, and leaves the other rows in their relative order.
   */
  lemma MoveSpec<T>(s: seq<T>, from: nat, to: nat)
    requires from < |s| && to < |s|
    ensures var r := Move(s, from, to);
      && |r| == |s|
      && r[to] == s[from]
      && RemoveAt(r, to) == RemoveAt(s, from)
      && multiset(r) == multiset(s)
  {
    InsertAtSpec(RemoveAt(s, from), to, s[from]);
    RemoveAtMultiset(s, from);
  }

  lemma InsertAtSpec<T>(s: seq<T>, i: nat, x: T)
    requires i <= |s|
    ensures |InsertAt(s, i, x)| == |s| + 1 && InsertAt(s, i, x)[i] == x
    ensures RemoveAt(InsertAt(s, i, x), i) == s
    ensures multiset(InsertAt(s, i, x)) == multiset(s) + multiset{x}
  {
    var r := InsertAt(s, i, x);
    assert r[..i] == s[..i] && r[i + 1..] == s[i..];
    assert s == s[..i] + s[i..];
  }

  lemma RemoveAtMultiset<T>(s: seq<T>, i: nat)
    requires i < |s|
    ensures multiset(RemoveAt(s, i)) + multiset{s[i]} == multiset(s)
  {
    assert s == s[..i] + [s[i]] + s[i + 1..];
  }

  /** Moving the row back undoes moveRow. */
  lemma MoveInverse<T>(s: seq<T>, from: nat, to: nat)
    requires from < |s| && to < |s|
    ensures Move(Move(s, from, to), to, from) == s
  {
    var r := Move(s, from, to);
    MoveSpec(s, from, to);
    var t := RemoveAt(s, from);
    assert Move(r, to, from) == InsertAt(t, from, s[from]);
    assert t[..from] == s[..from] && t[from..] == s[from + 1..];
    assert s == s[..from] + [s[from]] + s[from + 1..];
  }

  /** moveRow(0, 2) on `[A, B, C]` gives `[B, C, A]`. */
  lemma MoveExample()
    ensures Move(['A', 'B', 'C'], 0, 2) == ['B', 'C', 'A']
  {
    assert RemoveAt(['A', 'B', 'C'], 0) == ['B', 'C'];
  }

  // ----- serializeRow, getSerialized, getRow, updateCell -----

  /**
   * `serializeRow`: an object with one property per current column label,
   * holding `row[label]`, undefined where the row has no such property.
   */
  function Serialize(names: seq<string>, row: Row): (obj: map<string, Value>)
    ensures obj.Keys == set l | l in names
    ensures forall l :: l in obj ==> obj[l] == Cell(row, l)
  {
    map l | l in names :: Cell(row, l)
  }
  /** Serializing one more label adds that label's cell. */
  lemma SerializeSnoc(names: seq<string>, i: int, row: Row)
    requires 0 <= i < |names|
    ensures Serialize(names[..i + 1], row) == Serialize(names[..i], row)[names[i] := Cell(row, names[i])]
  {
    assert forall l :: l in names[..i + 1] <==> l in names[..i] || l == names[i];
  }


  /** A row's serialization depends on nothing but its cells under the labels. */
  lemma SerializeOnlyReadsLabels(names: seq<string>, a: Row, b: Row)
    requires forall l :: l in names ==> Cell(a, l) == Cell(b, l)
    ensures Serialize(names, a) == Serialize(names, b)
  {
  }

  /** `getSerialized`: every row serialized, in row order. */
  function SerializeAll(rows: seq<Row>, names: seq<string>): (out: seq<map<string, Value>>)
    ensures |out| == |rows|
    ensures forall i :: 0 <= i < |rows| ==> out[i] == Serialize(names, rows[i])
  {
    seq(|rows|, i requires 0 <= i < |rows| => Serialize(names, rows[i]))
  }

  /** `getRow`: the serialization of the first row with the id, None when none has it. */
  function GetRowOf(rows: seq<Row>, names: seq<string>, id: Value): (r: Option<map<string, Value>>)
    ensures r.None? <==> forall i :: 0 <= i < |rows| ==> IdOf(rows[i]) != id
    ensures r.Some? ==> exists i ::
      && 0 <= i < |rows| && IdOf(rows[i]) == id
      && (forall j :: 0 <= j < i ==> IdOf(rows[j]) != id)
      && r.value == Serialize(names, rows[i])
  {
    match FindRow(rows, id)
    case Some(i) => Some(Serialize(names, rows[i]))
    case None => None
  }

  /** `updateCell`: the first row with the id gets `value` under `key`. */
  function SetCell(rows: seq<Row>, rowId: Value, key: string, value: Value): (r: seq<Row>)
    requires FindRow(rows, rowId).Some?
    ensures |r| == |rows|
    ensures Cell(r[FindRow(rows, rowId).value], key) == value
  {
    var i := FindRow(rows, rowId).value;
    rows[i := rows[i][key := value]]
  }

  /**
   * The updateCell round trip: only the first row with the id changes, and
   * only under `key`; it keeps its place as the first row with that id
   * (unless the write changes its id), so getRow reads `value` back under
   * `key` whenever `key` is a current column label.
   */
  lemma SetCellRoundTrip(rows: seq<Row>, names: seq<string>, rowId: Value, key: string, value: Value)
    requires FindRow(rows, rowId).Some?
    requires key != "id" || value == rowId
    ensures var i := FindRow(rows, rowId).value; var r := SetCell(rows, rowId, key, value);
      && |r| == |rows|
      && (forall j :: 0 <= j < |rows| && j != i ==> r[j] == rows[j])
      && (forall k :: k != key ==> Cell(r[i], k) == Cell(rows[i], k))
      && Cell(r[i], key) == value
      && FindRow(r, rowId) == Some(i)
      && (key in names ==> GetRowOf(r, names, rowId).Some? && GetRowOf(r, names, rowId).value[key] == value)
  {
    var i := FindRow(rows, rowId).value;
    var r := SetCell(rows, rowId, key, value);
    assert IdOf(r[i]) == rowId;
    assert forall j :: 0 <= j < i ==> IdOf(r[j]) != rowId;
  }
}
