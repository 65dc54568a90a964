# XTable data model in Dafny

`table/xtable.js` is an in-browser table widget. Besides rendering, it keeps
a small data model on itself: the row records (`rows`), the displayed column
ids in display order (`columns`), three lookup tables rebuilt on every load
(`colMap`: id to column, `colIDLookup`: label to id, `colType`: id to
inferred type), the sort state (`sortColumn`, `sortAscending`), the options
and the tokens of the `rowOrder` option. This project models that state and
the operations listed below that read or change it, and proves what each
operation promises.

Files and modules:

- `wrappers.dfy` (`Wrappers`): the `Option` type. It stands for
  `undefined`: a missing argument, an unknown column type, or a `find`
  that matches nothing.
- `ordering.dfy` (`Ordering`): sort keys, JavaScript `<` on numbers and
  strings, and the three-way comparator. `SortSpec` is a stable insertion
  sort written as functions. `StableSort` is the same sort with loops. The
  lemmas prove that the result is a permutation, that it is ordered, and
  that it is stable. `SortUnique` proves that it is the only sequence with
  those three properties. So it is what `Array.prototype.sort` must return:
  ECMA-262 requires that sort to be stable (2019 edition, section
  22.1.3.27, and the corresponding section of later editions).
- `cells.dfy` (`Cells`): cell values, column types, type inference from the
  first row, and the key the `sortBy` comparator compares for a cell.
- `tablespec.dfy` (`TableSpec`): the operations as functions on values, and
  their lemmas. These cover the lookup tables, `getColumns` and
  `getColumnNames`, `find` on rows and columns, `filter` (`removeRow`), the
  double `splice` (`moveRow`), the rank order of `setColumnOrder`,
  serialization, and the `updateCell` write.
- `xtable.dfy` (`XTableModel`): the class `XTable`. Its fields are the
  source's fields. The operations that change state are methods with field
  frames: the loading loop of `setData`, `sortBy`, `setColumnOrder`,
  `removeRow`, `moveRow`, `updateCell`, `updateData` and the constructor.
  The queries are functions that read `this`. Each method's `ensures` ties
  the new state to the `TableSpec`/`Ordering` function for that operation,
  and the properties are proved about those functions.

Several behaviours of the code are kept as written:

- `getColumnNames` returns labels. So `serializeRow` keys its result by
  label and reads `row[label]`.
- `updateCell` writes under the label that the view passes to it.
- `updateData` looks up the `rowOrder` column by id, not by label, and it
  reads the tokens that the constructor parsed.
- `sortBy` on a new column with no direction sorts descending, because the
  missing argument is `undefined`.
- `colIDLookup` is built but never read.

## Model

| member | source | states |
|---|---|---|
| Ordering.Compare | table/xtable.js:153-156 | The comparator returns 0 exactly for equal keys. It is negative exactly when a comes first in the requested direction (a < b ascending, b < a descending), and positive exactly in the opposite case. |
| Ordering.Less | table/xtable.js:154-155 | `<` on keys: numbers by value, strings by `StrLess`, character by character with a proper prefix first. Its order properties are the four lemmas below. |
| Ordering.LessIrreflexive | table/xtable.js:154-155 | No key is less than itself. |
| Ordering.LessTransitive | table/xtable.js:154-155 | a < b and b < c give a < c. |
| Ordering.LessTotal | table/xtable.js:154-155 | Two distinct keys are ordered one way or the other, so `!(a < b) && !(a > b)` (the comparator's 0) means equal keys. |
| Ordering.LessAsymmetric | table/xtable.js:154-155 | a < b and b < a never both hold. |
| Ordering.CompareAntisymmetric | table/xtable.js:153-156 | Swapping the two arguments flips the comparator's sign and keeps a tie a tie. |
| Ordering.CompareTransitive | table/xtable.js:153-156 | "Not after" is transitive, so the comparator is consistent, as Array.prototype.sort requires. |
| Ordering.Insert | table/xtable.js:141-157 | One insertion step of the stable sort: the result is one element longer than the sorted prefix. Its permutation, order and tie properties are InsertPermutation, InsertSorted and InsertTies. |
| Ordering.InsertPermutation | table/xtable.js:141-157 | Inserting adds exactly the one element: the multiset grows by x. |
| Ordering.InsertSorted | table/xtable.js:141-157 | Inserting into a sorted sequence leaves it sorted. |
| Ordering.InsertTies | table/xtable.js:141-157 | The inserted element lands after every element with the same key, and the other elements of each key keep their order. |
| Ordering.SortSpec | table/xtable.js:141-157 | The sort that `Array.prototype.sort` with the source's comparator must return. It is as long as its input. SortSpecPermutation, SortSpecSorted and SortSpecStable prove that it is a permutation, ordered and stable. |
| Ordering.SortSpecPermutation | table/xtable.js:141-157 | The sort returns a permutation of its input: same multiset, same length. |
| Ordering.SortSpecSorted | table/xtable.js:141-157 | The comparator never puts a later element of the result strictly before an earlier one. |
| Ordering.SortSpecStable | table/xtable.js:141-157 | Stability: for every key, the elements with that key appear in the result in their input order. |
| Ordering.SortSpecCorrect | table/xtable.js:141-157 | Permutation, order and stability together, with the order stated per direction: keys non-decreasing when ascending, non-increasing when descending. |
| Ordering.SortSpecOfSorted | table/xtable.js:141-157 | Sorting an already sorted sequence returns it unchanged. |
| Ordering.SortSpecIdempotent | table/xtable.js:141-157 | Sorting twice with the same key and direction gives the same result as sorting once. |
| Ordering.SortUnique | table/xtable.js:141-157 | Two sorted sequences with the same groups of equal keys, each group in the same order, are equal. So any stable sort gives the same result as SortSpec. |
| Ordering.StableSort | table/xtable.js:141-157 | The insertion sort with loops returns exactly SortSpec's result. |
| Cells.InferType | table/xtable.js:86-96 | A number gives numeric and a Date gives date. Every other value, including booleans, null, undefined and other objects, gives text. Each direction of these cases is stated as an if-and-only-if. |
| Cells.Upper | table/xtable.js:150-151 | `toUpperCase` on ASCII: same length, and each character upper-cased on its own. |
| Cells.NatToString | table/xtable.js:150-151 | The decimal text of a natural number: non-empty, digits only, and no leading zero. |
| Cells.NatToStringValue | table/xtable.js:150-151 | The digits denote the number: reading NatToString(n) back as a decimal numeral gives n. |
| Cells.NatToStringInjective | table/xtable.js:150-151 | Distinct numbers get distinct texts. |
| Cells.NumberToString | table/xtable.js:150-151 | The text of an integer: the decimal text of a non-negative number, and '-' followed by the decimal text of its absolute value for a negative one. So it starts with '-' exactly when the number is negative. |
| Cells.ToStr | table/xtable.js:150-151 | `toString()` of a cell: defined exactly for numbers, strings and booleans. A string is its own text, and a boolean gives "true" or "false". A number gives NumberToString of it, its decimal text. |
| Cells.SortKey | table/xtable.js:142-152 | In a numeric or date column, a number's key is that number and a Date's key is its epoch time; other values have none. In any other column, the key is the upper-cased `toString()` text whenever `toString()` is defined, and none otherwise; upper-casing it again changes nothing. |
| Cells.TextKeyIgnoresCase | table/xtable.js:149-151 | In a text column, a string and its upper-cased form have the same sort key, so they tie. |
| Cells.BananaTie | table/xtable.js:149-151 | "banana" and "BANANA" tie in a text column. |
| Cells.RowKey | table/xtable.js:142-152 | The key the comparator reads for a row: the sort key of `row[column]` whenever that key is defined. |
| TableSpec.Ids | table/xtable.js:80-83 | `columns` after setData lists the input ids in input order: same length, position by position. |
| TableSpec.ColMapOf | table/xtable.js:75-81 | colMap built column by column: the last column always sits under its own id, so a later column with a repeated id overwrites an earlier one. The full key set and entries are ColMapOfSpec. |
| TableSpec.LookupOf | table/xtable.js:78-82 | colIDLookup built column by column: the last column's label maps to its id, so later labels overwrite. The full map is LookupOfSpec. |
| TableSpec.TypesOf | table/xtable.js:76-96 | colType built column by column: the last column's id maps to the type inferred from its value in the first row. The full map is TypesOfSpec. |
| TableSpec.ColMapOfSpec | table/xtable.js:75-81 | colMap's keys are exactly the input ids. Every entry is stored under its own id. When no later column repeats an id, that id maps to its own column. |
| TableSpec.LookupOfSpec | table/xtable.js:78-82 | colIDLookup's keys are exactly the input labels. When no later column repeats a label, that label maps to its column's id. |
| TableSpec.TypesOfSpec | table/xtable.js:76-96 | colType's keys are exactly the input ids. Each id's type is the one inferred from that column's value in the first row, whatever the other rows hold. |
| TableSpec.LookupType | table/xtable.js:172-174 | `colType[id]` is defined exactly for known ids, and then it is the stored type. |
| TableSpec.NamesOf | table/xtable.js:161-163 | One label per displayed column: the label of that column's colMap entry, in display order. |
| TableSpec.ColumnsOf | table/xtable.js:165-170 | One `{id, label}` per displayed column, in display order. |
| TableSpec.ColMapAt | table/xtable.js:80-81 | With distinct ids, colMap maps each input id to its own column. |
| TableSpec.IdsInColMap | table/xtable.js:80-83 | Every id in `columns` after setData has a colMap entry. |
| TableSpec.ColumnsAfterLoad | table/xtable.js:165-170 | Right after setData with distinct ids, getColumns returns the input columns in input order. |
| TableSpec.NamesAfterLoad | table/xtable.js:161-163 | Right after setData with distinct ids, getColumnNames returns the input labels in input order. |
| TableSpec.FindColumn | table/xtable.js:211 | The column found has the id searched for. Nothing is found exactly when the name is undefined or no column has that id. |
| TableSpec.FindColumnOf | table/xtable.js:211-212 | Searching getColumns() for an id finds a column exactly when that id is displayed, and the column found carries that id. |
| TableSpec.SortRowsSpec | table/xtable.js:139-157 | sortBy's rows, when every row has a key: a permutation, still keyed, ordered by the cell keys (numbers as they are, text upper-cased) in the chosen direction, and each group of equal keys in its previous order. |
| TableSpec.IndexOf | table/xtable.js:178-179 | `order.indexOf(x)` is the first index holding x, and it is -1 exactly when x is not listed. |
| TableSpec.Rank | table/xtable.js:178-181 | A listed id ranks at its first index in `order`. An unlisted id gets the sentinel 100000000. |
| TableSpec.RankKey | table/xtable.js:178-181 | The sort key of an id is its rank, and keys compare exactly as ranks do. |
| TableSpec.RankComparator | table/xtable.js:178-182 | The source's `oa - ob` is negative or zero exactly when the ascending comparator on the ranks is. |
| TableSpec.UnrankedTiesAreAbsent | table/xtable.js:180-181 | With fewer than 100000000 listed ids, the ids that get the sentinel rank are exactly the unlisted ones, in order. |
| TableSpec.SetColumnOrderSpec | table/xtable.js:176-185 | The result is a permutation of the columns. Listed ids come before unlisted ones, ordered by their first index in `order`. Unlisted ids keep their previous relative order. |
| TableSpec.SetColumnOrderExample | table/xtable.js:176-185 | `[a, b, c]` with order `["b", "a"]` becomes `[b, a, c]`. |
| TableSpec.FindRow | table/xtable.js:119 | `rows.find(row => row.id === id)`: the index found holds the id and no earlier row does. Nothing is found exactly when no row has the id. |
| TableSpec.Without | table/xtable.js:122-125 | `rows.filter(d => d.id !== id)` never lengthens the rows. Its contents are WithoutMembers and WithoutLength. |
| TableSpec.WithoutMembers | table/xtable.js:122-125 | removeRow keeps exactly the rows whose id differs, unchanged. |
| TableSpec.WithoutConcat | table/xtable.js:122-125 | removeRow distributes over concatenation, so the surviving rows keep their relative order. |
| TableSpec.WithoutAbsent | table/xtable.js:122-125 | removeRow of an id that no row has changes nothing. |
| TableSpec.WithoutLength | table/xtable.js:122-125 | removeRow shortens the rows by the number of rows that carry the id. |
| TableSpec.RemoveUniqueRow | table/xtable.js:122-125 | With distinct ids, removeRow removes one row if the id is present and none otherwise, and afterwards no row has the id. |
| TableSpec.Move | table/xtable.js:127-130 | The double splice keeps the length and puts the element from `from` at `to`. The rest is MoveSpec. |
| TableSpec.MoveSpec | table/xtable.js:127-130 | moveRow keeps the length and the multiset of rows and puts the row from `from` at `to`. Taking out that row leaves the other rows as they were. |
| TableSpec.MoveInverse | table/xtable.js:127-130 | moveRow(to, from) undoes moveRow(from, to). |
| TableSpec.MoveExample | table/xtable.js:127-130 | `[A, B, C]` with moveRow(0, 2) becomes `[B, C, A]`. |
| TableSpec.Serialize | table/xtable.js:110-116 | The serialized row's keys are exactly the given labels, and each label maps to `row[label]`. |
| TableSpec.SerializeOnlyReadsLabels | table/xtable.js:110-116 | Two rows that agree under every label serialize the same, so extra fields never leak into the result. |
| TableSpec.SerializeAll | table/xtable.js:106-108 | getSerialized has one entry per row, in row order, and each entry is that row's serialization. |
| TableSpec.GetRowOf | table/xtable.js:118-120 | `serializeRow(rows.find(...))`: None exactly when no row has the id. Otherwise it is the serialization of the first row with the id. |
| TableSpec.SetCell | table/xtable.js:187-190 | The write keeps the number of rows, and the first row with the id then holds the value under the key. |
| TableSpec.SetCellRoundTrip | table/xtable.js:187-190 | updateCell changes only the first row with the id, and only under the written key. That row is still the first with the id. getRow then reads the new value under the key whenever the key is a current label. This needs the write to keep the row's id: the key is not "id", or the value is the id itself. A write under a column labelled "id" is not covered, since it changes the row's id. |
| XTableModel.Split | table/xtable.js:65 | `split(' ')` returns at least one part, and no part contains the separator. |
| XTableModel.SplitJoin | table/xtable.js:65 | Joining the split parts with the separator gives back the option string, so no token is lost. |
| XTableModel.ParseRowOrder | table/xtable.js:65 | `rowOrder ? rowOrder.split(' ') : []`: empty exactly for an empty option string. No token contains a space, and joining the tokens with spaces gives the option string back. |
| XTableModel.RowOrderTarget | table/xtable.js:206-212 | No sort without a rowOrder option or without tokens. A sort exactly when the first token is a column id, and then by that column, ascending exactly when the second token is "asc". |
| XTableModel.LoadSortableReady | table/xtable.js:199-212 | After setData and a column reorder, the rowOrder token targets the same column as before the reorder, and the rows can be sorted by it. |
| XTableModel.XTable.constructor | table/xtable.js:50-66 | The new table holds the options and the parsed rowOrder tokens, and it is in the state that updateData(data) produces from an empty sort state. |
| XTableModel.XTable.SetData | table/xtable.js:72-100 | All four tables are rebuilt from scratch from the columns and the first row, the rows are replaced, and every displayed id has its column. |
| XTableModel.XTable.GetRows | table/xtable.js:102-104 | Returns the live row sequence. |
| XTableModel.XTable.GetColumnNames | table/xtable.js:161-163 | Returns the label of each displayed column, in display order. |
| XTableModel.XTable.GetColumns | table/xtable.js:165-170 | Returns the id and label of each displayed column, in display order. |
| XTableModel.XTable.GetColumnType | table/xtable.js:172-174 | Returns a type exactly for known ids, and then the inferred one. |
| XTableModel.XTable.SerializeRow | table/xtable.js:110-116 | The label-by-label loop builds exactly the serialization of the row under the current labels. |
| XTableModel.XTable.GetSerialized | table/xtable.js:106-108 | One object per row, in row order. Each object's keys are the current labels, and each label maps to the row's cell under that label. |
| XTableModel.XTable.GetRow | table/xtable.js:118-120 | Returns None exactly when no row has the id. Otherwise it returns the serialization of the first row that has the id: no earlier row has it. |
| XTableModel.XTable.RemoveRow | table/xtable.js:122-125 | The new rows are the filter of the old rows by id, and nothing else changes. |
| XTableModel.XTable.MoveRow | table/xtable.js:127-130 | The two splices give exactly Move of the old rows, and nothing else changes. |
| XTableModel.XTable.SortBy | table/xtable.js:132-159 | With no direction, the same column flips the direction and a new column sorts descending. A given direction is used as it is. The column becomes the sort column. The rows are the stable sort of the old rows by that column's key. |
| XTableModel.XTable.SetColumnOrder | table/xtable.js:176-185 | `columns` becomes the stable rank sort of the old columns, and every displayed id still has its column. |
| XTableModel.XTable.UpdateCell | table/xtable.js:187-190 | The rows become SetCell of the old rows: the new value goes under the key in the first row with the id. |
| XTableModel.XTable.ApplyRowOrder | table/xtable.js:206-213 | When rowOrder is set and its first token is a displayed id, this sorts by that column, ascending exactly when the second token is "asc". Otherwise rows and sort state stay as they were. |
| XTableModel.XTable.LoadColumns | table/xtable.js:199-204 | After setData and the columnOrder reorder, the tables are rebuilt from the data, `columns` is the loaded ids in option order, and the rows are the loaded rows. |
| XTableModel.XTable.UpdateData | table/xtable.js:199-213 | The load pipeline: setData, then the columnOrder reorder when the list is non-empty, then the rowOrder sort. The options and tokens are unchanged. |

## Left out

- Rendering (`render`, table/xtable.js:217-381): HTML, the DOM, the drag
  library and event listeners. It changes the model only through `moveRow`,
  `sortBy`, `updateCell` and `removeRow`, and those are modelled. It reads
  the model through queries that are modelled too (`getColumns`, `getRows`,
  `getColumnType`, `getRow`) and through the sort fields.
- `setSelected` and `setHighlighted`: their state lives only in DOM class
  lists.
- `updateOptions`: it only stores the options, re-splits `rowOrder` (as the
  constructor does) and re-renders.
- `divId` and `title`: they are only used for rendering.
- Method chaining: the model's methods do not return `this`.
- Aliasing: the source keeps the caller's `rows` array and row objects, and
  `sortBy`, `moveRow` and `updateCell` mutate them in place, where the
  caller can see the change. The model holds values, so the caller's copy
  is not affected.
- Key order of serialized objects: JavaScript objects remember insertion
  order, but a Dafny map does not.
- Numbers are integers and Dates are epoch milliseconds. The model does not
  cover floating point, NaN, or JavaScript's coercion when `<` compares
  values of mixed types. Integers are unbounded, so integers beyond 2^53,
  which a JavaScript number does not hold exactly, are not modelled.
  `NumberToString` always writes plain digits, while JavaScript's
  `toString` writes integers of 1e21 and above in exponent form ("1e+21").
- `Date.prototype.toString` in a text column depends on the time zone.
- `toUpperCase` is modelled for ASCII letters only.
- String `<` is modelled as comparison by character, which is not the
  same as JavaScript's UTF-16 code-unit comparison outside the Basic
  Multilingual Plane.
- Rows and ids that are objects are compared by value, not by reference.
  An object that is not a Date is the single value `Obj`, with no fields.
  So in the model all such objects are equal to each other, and `find` by an
  object id matches any row whose id is an object.
- `toString()` of an object that is not a Date is not modelled. Its text
  depends on the object: an array joins its elements, and an object can
  define its own `toString`. `ToStr` is undefined for such values. So a
  text column that holds objects has no sort key, and `sortBy` over it is
  excluded (see XTableModel.XTable.SortBy below).
- Comparing DOM `data-id` strings with numeric ids is a view-layer issue.
- Ordering.Less: keys of different kinds (a number against a string) are
  ordered numbers first. A column's type fixes the kind of all its keys, so
  the source never compares the two kinds.
- XTableModel.XTable.SortBy: requires every row to have a key in the
  column (or fewer than two rows). The source throws when `toString` is
  called on null or undefined. The model also leaves out Date and other
  object cells in a text column, whose text it does not model, and
  non-number cells in a numeric or date column, which the source compares
  with JavaScript's coercion (null as 0) and does not reject. The model
  does not cover a call that passes `undefined` explicitly (`arguments.length` is 2), or `sortBy(null)` from
  the view's header cells.
- XTableModel.XTable.UpdateData: requires a first row when there are
  columns; the source throws there (`rows[0][c.id]`). When the rowOrder
  sort applies, it also requires what SortBy requires of the loaded rows.
  Of the cases that excludes, the source throws only for null or undefined
  cells in a text column. It sorts Date and other object cells in a text
  column by their text, and non-number cells in a numeric or date column
  with JavaScript's coercion.
- XTableModel.XTable.constructor: has the same preconditions as
  UpdateData.
- XTableModel.XTable.MoveRow: requires both indices to be in range. Only
  an out-of-range `from` makes the source insert `undefined` (the inner
  `splice` returns `[]`). The requires also excludes cases the source
  handles: a `to` at or past the end appends the row, and a negative index
  counts from the end.
- XTableModel.XTable.UpdateCell: requires a row with the id. The source
  throws a TypeError otherwise.
- XTableModel.XTable.GetRow: returns None when no row has the id. The
  source throws a TypeError there when there are columns, and returns `{}`
  when there are none.
- XTableModel.XTable.SerializeRow: requires every displayed id to have a
  colMap entry (Valid). The source throws otherwise, and this cannot
  happen after a load.
- TableSpec.SetColumnOrderSpec: requires fewer than 100000000 listed ids,
  so that the sentinel rank cannot clash with a real index.
