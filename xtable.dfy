/**
 * The XTable widget's model (table/xtable.js): the state the widget keeps
 * on itself and the operations that change or read it. The fields are the
 * source's own; rendering and the DOM are not part of this model.
 */
module XTableModel {
  import opened Wrappers
  import opened Ordering
  import opened Cells
  import opened TableSpec

  /** The payload of setData and updateData. */
  datatype Data = Data(columns: seq<Column>, rows: seq<Row>)

  /**
   * The options the model reads: `columnOrder` (an absent list is empty)
   * and `rowOrder` (an absent string is ""); the others only style the view.
   */
  datatype Options = Options(columnOrder: seq<string>, rowOrder: string)

  /** `s.split(sep)` with a one-character separator. */
  function Split(s: string, sep: char): (parts: seq<string>)
    ensures |parts| >= 1
    ensures forall i :: 0 <= i < |parts| ==> sep !in parts[i]
    decreases |s|
  {
    if s == [] then [""]
    else
      var rest := Split(s[1..], sep);
      if s[0] == sep then [""] + rest
      else [[s[0]] + rest[0]] + rest[1..]
  }

  /** `parts.join(sep)` */
  function Join(parts: seq<string>, sep: char): string
    requires |parts| >= 1
  {
    if |parts| == 1 then parts[0] else parts[0] + [sep] + Join(parts[1..], sep)
  }

  /** Splitting loses nothing: joining the parts with the separator gives the string back. */
  lemma {:induction false} SplitJoin(s: string, sep: char)
    ensures Join(Split(s, sep), sep) == s
    decreases |s|
  {
    if s != [] {
      SplitJoin(s[1..], sep);
      var rest := Split(s[1..], sep);
      if s[0] == sep {
        assert ([""] + rest)[1..] == rest;
        assert s == [sep] + s[1..];
      } else {
        var parts := [[s[0]] + rest[0]] + rest[1..];
        if |rest| > 1 {
          assert parts[1..] == rest[1..];
          assert Join(rest, sep) == rest[0] + [sep] + Join(rest[1..], sep);
        }
        assert s == [s[0]] + s[1..];
      }
    }
  }

  /** `rowOrder ? rowOrder.split(' ') : []` */
  function ParseRowOrder(rowOrder: string): (r: seq<string>)
    ensures r == [] <==> rowOrder == ""
    ensures forall i :: 0 <= i < |r| ==> ' ' !in r[i]
    ensures rowOrder != "" ==> Join(r, ' ') == rowOrder
  {
    if rowOrder == "" then [] else SplitJoin(rowOrder, ' '); Split(rowOrder, ' ')
  }

  /**
   * The sort updateData applies after loading: the column named by the
   * first token of the parsed rowOrder, when `options.rowOrder` is set and
   * that token is a column id; ascending exactly when the second token is
   * "asc".
   */
  function RowOrderTarget(options: Options, rowOrder: seq<string>, ids: seq<string>): (t: Option<(string, bool)>)
    ensures options.rowOrder == "" || rowOrder == [] ==> t.None?
    ensures options.rowOrder != "" && rowOrder != [] && rowOrder[0] in ids ==> t.Some?
    ensures t.Some? ==> t.value.0 == rowOrder[0] && t.value.0 in ids
    ensures t.Some? ==> (t.value.1 <==> |rowOrder| > 1 && rowOrder[1] == "asc")
  {
    if options.rowOrder != "" && |rowOrder| > 0 && rowOrder[0] in ids then
      Some((rowOrder[0], |rowOrder| > 1 && rowOrder[1] == "asc"))
    else None
  }

  /**
   * The load's sort, if there is one, can compare the rows: every row has a
   * key in the target column, or there are fewer than two rows and the
   * comparator never runs.
   */
  predicate LoadSortable(data: Data, options: Options, rowOrder: seq<string>)
  {
    match RowOrderTarget(options, rowOrder, Ids(data.columns))
    case Some((column, _)) =>
      |data.rows| < 2 || Keyed(data.rows, LookupType(TypesOf(data.columns, data.rows[0]), column), column)
    case None => true
  }

  /** The display order of the loaded columns: by columnOrder rank when one is given. */
  function ReorderedIds(data: Data, options: Options): seq<string>
  {
    if |options.columnOrder| > 0 then SortSpec(Ids(data.columns), RankKey(options.columnOrder), true)
    else Ids(data.columns)
  }

  /** The sort a rowOrder asks for over `columns` can compare `rows`. */
  predicate SortReady(options: Options, rowOrder: seq<string>, columns: seq<string>,
                      colType: map<string, ColType>, rows: seq<Row>)
  {
    match RowOrderTarget(options, rowOrder, columns)
    case Some((column, _)) => |rows| < 2 || Keyed(rows, LookupType(colType, column), column)
    case None => true
  }

  /**
   * After setData and any column reordering, the rowOrder targets the same
   * column as over the loaded ids, and LoadSortable makes that sort possible.
   */
  lemma LoadSortableReady(data: Data, options: Options, rowOrder: seq<string>, columns: seq<string>,
                          colType: map<string, ColType>)
    requires LoadSortable(data, options, rowOrder)
    requires columns == ReorderedIds(data, options)
    requires colType == (if |data.rows| > 0 then TypesOf(data.columns, data.rows[0]) else map[])
    ensures RowOrderTarget(options, rowOrder, columns) == RowOrderTarget(options, rowOrder, Ids(data.columns))
    ensures SortReady(options, rowOrder, columns, colType, data.rows)
  {
    if |options.columnOrder| > 0 {
      SortSpecPermutation(Ids(data.columns), RankKey(options.columnOrder), true);
    }
    if |rowOrder| > 0 {
      assert rowOrder[0] in columns <==> rowOrder[0] in multiset(Ids(data.columns));
    }
  }

  /**
   * The outcome of the load's last step: with a target, the rows are stably
   * sorted by that column in its direction and it becomes the sort column;
   * without one, rows and sort state are as they were.
   */
  predicate RowOrderApplied(target: Option<(string, bool)>, colType: map<string, ColType>,
                            before: seq<Row>, prevColumn: string, prevAscending: bool,
                            rows: seq<Row>, sortColumn: string, sortAscending: bool)
  {
    match target
    case Some((column, ascending)) =>
      && sortColumn == column && sortAscending == ascending
      && rows == SortSpec(before, RowKey(LookupType(colType, column), column), ascending)
    case None =>
      sortColumn == prevColumn && sortAscending == prevAscending && rows == before
  }

  class XTable {
    var rows: seq<Row>
    var columns: seq<string>
    var colMap: map<string, Column>
    var colIDLookup: map<string, string>
    var colType: map<string, ColType>
    var sortColumn: string
    var sortAscending: bool
    var options: Options
    var rowOrder: seq<string>

    /** Every displayed column id has its definition, stored under that id. */
    ghost predicate Valid()
      reads this`columns, this`colMap
    {
      forall c :: c in columns ==> c in colMap && colMap[c].id == c
    }

    /**
     * The state right after updateData(data), given the sort state before
     * it: the lookup tables rebuilt from data, the columns in option order,
     * and the rows sorted by the rowOrder option when it names a column.
     */
    ghost predicate LoadedFrom(data: Data, prevColumn: string, prevAscending: bool)
      reads this
    {
      && colMap == ColMapOf(data.columns)
      && colIDLookup == LookupOf(data.columns)
      && colType == (if |data.rows| > 0 then TypesOf(data.columns, data.rows[0]) else map[])
      && columns == ReorderedIds(data, options)
      && RowOrderApplied(RowOrderTarget(options, rowOrder, Ids(data.columns)), colType,
                         data.rows, prevColumn, prevAscending, rows, sortColumn, sortAscending)
    }

    /** `new XTable(divId, title, data, options)` without the rendering. */
    constructor (data: Data, options: Options)
      requires |data.columns| > 0 ==> |data.rows| > 0
      requires LoadSortable(data, options, ParseRowOrder(options.rowOrder))
      ensures Valid()
      ensures this.options == options && rowOrder == ParseRowOrder(options.rowOrder)
      ensures LoadedFrom(data, "", true)
    {
      rows := [];
      columns := [];
      colMap := map[];
      colIDLookup := map[];
      colType := map[];
      sortColumn := "";
      sortAscending := true;
      this.options := options;
      rowOrder := ParseRowOrder(options.rowOrder);
      new;
      UpdateData(data);
    }

    /**
     * Replaces the lookup tables and the rows. Each column's type comes
     * from its value in the first row alone.
     */
    method SetData(data: Data)
      requires |data.columns| > 0 ==> |data.rows| > 0
      modifies this`rows, this`columns, this`colMap, this`colIDLookup, this`colType
      ensures Valid()
      ensures columns == Ids(data.columns)
      ensures colMap == ColMapOf(data.columns)
      ensures colIDLookup == LookupOf(data.columns)
      ensures colType == (if |data.rows| > 0 then TypesOf(data.columns, data.rows[0]) else map[])
      ensures rows == data.rows
    {
      colMap := map[];
      colType := map[];
      columns := [];
      colIDLookup := map[];
      for i := 0 to |data.columns|
        invariant columns == Ids(data.columns[..i])
        invariant colMap == ColMapOf(data.columns[..i])
        invariant colIDLookup == LookupOf(data.columns[..i])
        invariant colType == (if i > 0 then TypesOf(data.columns[..i], data.rows[0]) else map[])
        invariant Valid()
      {
        var c := data.columns[i];
        assert data.columns[..i + 1][..i] == data.columns[..i];
        colMap := colMap[c.id := c];
        colIDLookup := colIDLookup[c.name := c.id];
        columns := columns + [c.id];
        var value := Cell(data.rows[0], c.id);
        colType := colType[c.id := InferType(value)];
      }
      assert data.columns[..|data.columns|] == data.columns;
      rows := data.rows;
    }

    /** `getRows`: the live row sequence itself. */
    function GetRows(): (r: seq<Row>)
      reads this
      ensures r == rows
    {
      rows
    }

    /** `getColumnNames`: the label of each displayed column, in display order. */
    function GetColumnNames(): (names: seq<string>)
      requires Valid()
      reads this
      ensures |names| == |columns|
      ensures forall i :: 0 <= i < |columns| ==> names[i] == colMap[columns[i]].name
    {
      NamesOf(columns, colMap)
    }

    /** `getColumns`: id and label of each displayed column, in display order. */
    function GetColumns(): (view: seq<Column>)
      requires Valid()
      reads this
      ensures |view| == |columns|
      ensures forall i :: 0 <= i < |columns| ==> view[i].id == columns[i] && view[i].name == colMap[columns[i]].name
    {
      ColumnsOf(columns, colMap)
    }

    /** `getColumnType`: the inferred type, None (undefined) for an unknown id. */
    function GetColumnType(id: string): (t: Option<ColType>)
      reads this
      ensures t.Some? <==> id in colType
      ensures t.Some? ==> t.value == colType[id]
    {
      LookupType(colType, id)
    }

    /** `serializeRow`: builds the object label by label, as the source's loop does. */
    method SerializeRow(row: Row) returns (obj: map<string, Value>)
      requires Valid()
      ensures obj == Serialize(GetColumnNames(), row)
    {
      var names := GetColumnNames();
      obj := map[];
      for i := 0 to |names|
        invariant obj == Serialize(names[..i], row)
      {
        SerializeSnoc(names, i, row);
        obj := obj[names[i] := Cell(row, names[i])];
      }
      assert names[..|names|] == names;
    }

    /** `getSerialized`: each row serialized, in row order. */
    function GetSerialized(): (out: seq<map<string, Value>>)
      requires Valid()
      reads this
      ensures |out| == |rows|
      ensures forall i :: 0 <= i < |rows| ==>
        out[i].Keys == (set l | l in GetColumnNames()) && forall l :: l in out[i] ==> out[i][l] == Cell(rows[i], l)
    {
      SerializeAll(rows, GetColumnNames())
    }

    /** `getRow`: the first row with the id, serialized; None when no row has it. */
    function GetRow(id: Value): (r: Option<map<string, Value>>)
      requires Valid()
      reads this
      ensures r.None? <==> forall i :: 0 <= i < |rows| ==> IdOf(rows[i]) != id
      ensures r.Some? ==> exists i ::
        && 0 <= i < |rows| && IdOf(rows[i]) == id
        && (forall j :: 0 <= j < i ==> IdOf(rows[j]) != id)
        && r.value == Serialize(GetColumnNames(), rows[i])
    {
      GetRowOf(rows, GetColumnNames(), id)
    }

    /** `removeRow`: keeps the rows whose id differs. */
    method RemoveRow(id: Value)
      modifies this`rows
      ensures rows == Without(old(rows), id)
    {
      rows := Without(rows, id);
    }

    /** `moveRow`: takes the row out at `from` and puts it back in at `to`. */
    method MoveRow(from: nat, to: nat)
      requires from < |rows| && to < |rows|
      modifies this`rows
      ensures rows == Move(old(rows), from, to)
    {
      var moved := rows[from];
      rows := rows[..from] + rows[from + 1..];
      rows := rows[..to] + [moved] + rows[to..];
    }

    /**
     * `sortBy`: without a direction, a second sort on the current column
     * flips the direction, and a sort on another column is descending
     * (the missing argument is undefined, which reads as false); a given
     * direction is taken as it is. Then the rows are stably sorted.
     */
    method SortBy(column: string, ascending: Option<bool>)
      requires |rows| < 2 || Keyed(rows, GetColumnType(column), column)
      modifies this`rows, this`sortColumn, this`sortAscending
      ensures sortColumn == column
      ensures ascending.Some? ==> sortAscending == ascending.value
      ensures ascending.None? && old(sortColumn) == column ==> sortAscending == !old(sortAscending)
      ensures ascending.None? && old(sortColumn) != column ==> !sortAscending
      ensures rows == SortSpec(old(rows), RowKey(GetColumnType(column), column), sortAscending)
    {
      if sortColumn == column && ascending.None? {
        sortAscending := !sortAscending;
      } else {
        sortAscending := ascending.GetOr(false);
      }
      sortColumn := column;
      var sortType := GetColumnType(column);
      rows := StableSort(rows, RowKey(sortType, column), sortAscending);
    }

    /** `setColumnOrder`: stably sorts the displayed ids by their rank in `order`. */
    method SetColumnOrder(order: seq<string>)
      requires Valid()
      modifies this`columns
      ensures Valid()
      ensures columns == SortSpec(old(columns), RankKey(order), true)
    {
      SortSpecPermutation(columns, RankKey(order), true);
      columns := StableSort(columns, RankKey(order), true);
      assert forall c :: c in columns ==> c in multiset(old(columns));
    }

    /**
     * `updateCell`: writes `value` under `columnName` (the column's label,
     * as the view passes it) in the first row with the id.
     */
    method UpdateCell(rowId: Value, columnName: string, value: Value)
      requires FindRow(rows, rowId).Some?
      modifies this`rows
      ensures rows == SetCell(old(rows), rowId, columnName, value)
    {
      var i := FindRow(rows, rowId).value;
      rows := rows[i := rows[i][columnName := value]];
    }

    /** The load's sort, if there is one, can compare the current rows. */
    ghost predicate RowOrderReady()
      reads this
    {
      SortReady(options, rowOrder, columns, colType, rows)
    }

    /**
     * The last step of `updateData`: when `options.rowOrder` is set and the
     * first token of the parsed rowOrder is the id of a displayed column,
     * sort by that column, ascending exactly when the second token is "asc".
     * The ghost `target` is that outcome, named by the caller for its proof.
     */
    method ApplyRowOrder(ghost target: Option<(string, bool)>)
      requires Valid() && target == RowOrderTarget(options, rowOrder, columns)
      requires RowOrderReady()
      modifies this`rows, this`sortColumn, this`sortAscending
      ensures Valid()
      ensures RowOrderApplied(target, colType, old(rows), old(sortColumn), old(sortAscending),
                              rows, sortColumn, sortAscending)
    {
      if options.rowOrder != "" {
        var columnName := if |rowOrder| > 0 then Some(rowOrder[0]) else None;
        var ascending := |rowOrder| > 1 && rowOrder[1] == "asc";
        var col := FindColumn(GetColumns(), columnName);
        FindColumnOf(columns, colMap, columnName);
        if col.Some? {
          SortBy(col.value.id, Some(ascending));
        }
      }
    }

    /**
     * The first two steps of `updateData`: setData, then the columnOrder
     * option when it is non-empty.
     */
    method LoadColumns(data: Data)
      requires |data.columns| > 0 ==> |data.rows| > 0
      modifies this`rows, this`columns, this`colMap, this`colIDLookup, this`colType
      ensures Valid()
      ensures columns == ReorderedIds(data, options)
      ensures colMap == ColMapOf(data.columns)
      ensures colIDLookup == LookupOf(data.columns)
      ensures colType == (if |data.rows| > 0 then TypesOf(data.columns, data.rows[0]) else map[])
      ensures rows == data.rows
    {
      SetData(data);
      if |options.columnOrder| > 0 {
        SetColumnOrder(options.columnOrder);
      }
    }

    /**
     * `updateData` without the rendering: setData, then the columnOrder
     * option when it is non-empty, then the rowOrder option's sort.
     */
    method UpdateData(data: Data)
      requires |data.columns| > 0 ==> |data.rows| > 0
      requires LoadSortable(data, options, rowOrder)
      modifies this
      ensures Valid()
      ensures options == old(options) && rowOrder == old(rowOrder)
      ensures LoadedFrom(data, old(sortColumn), old(sortAscending))
    {
      LoadColumns(data);
      LoadSortableReady(data, options, rowOrder, columns, colType);
      ApplyRowOrder(RowOrderTarget(options, rowOrder, Ids(data.columns)));
    }
  }
}
