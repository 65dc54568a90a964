/**
 * Cell values, column types and the sort keys of table/xtable.js.
 */
module Cells {
  import opened Wrappers
  import opened Ordering

  /**
   * A cell value. Numbers are integers and a Date is its epoch
   * milliseconds; Obj stands for any object that is not a Date.
   */
  datatype Value = Num(n: int) | Str(s: string) | Bool(b: bool) | DateV(ms: int) | Obj | Null | Undefined

  datatype ColType = Numeric | Date | Text

  /**
   * A column definition: its id and its `label`, the text of its header.
   * (`label` is a Dafny keyword; the source calls labels column names.)
   */
  datatype Column = Column(id: string, name: string)

  /** A row record: property name to value; its identity is property "id". */
  type Row = map<string, Value>

  /** `row[key]`: a property the row does not have reads as undefined. */
  function Cell(row: Row, key: string): Value
  {
    if key in row then row[key] else Undefined
  }

  /** `row.id` */
  function IdOf(row: Row): Value
  {
    Cell(row, "id")
  }

  /**
   * The type setData gives a column from the column's value in the first
   * row: `typeof` number is numeric, a Date object is date, and every other
   * value (string, boolean, null, undefined, other objects) is text.
   */
  function InferType(v: Value): (t: ColType)
    ensures t == Numeric <==> v.Num?
    ensures t == Date <==> v.DateV?
    ensures t == Text <==> !(v.Num? || v.DateV?)
  {
    match v
    case Num(_) => Numeric
    case DateV(_) => Date
    case _ => Text
  }

  /** `toUpperCase` restricted to ASCII letters. */
  function UpperChar(c: char): char
  {
    if 'a' <= c <= 'z' then (c as int - 32) as char else c
  }

  function Upper(s: string): (u: string)
    ensures |u| == |s| && forall i :: 0 <= i < |s| ==> u[i] == UpperChar(s[i])
  {
    seq(|s|, i requires 0 <= i < |s| => UpperChar(s[i]))
  }

  /** The character of a decimal digit. */
  function DigitChar(d: nat): (c: char)
    requires d < 10
    ensures '0' <= c <= '9' && DigitValue(c) == d
  {
    ('0' as int + d) as char
  }

  /** The value of a decimal digit character (0 for any other character). */
  function DigitValue(c: char): nat
  {
    if '0' <= c <= '9' then c as int - '0' as int else 0
  }

  /** The number a string of decimal digits denotes, most significant first. */
  function DecValue(s: string): nat
  {
    if s == [] then 0 else 10 * DecValue(s[..|s| - 1]) + DigitValue(s[|s| - 1])
  }

  /** The decimal digits of n, most significant first, with no leading zero. */
  function NatToString(n: nat): (r: string)
    ensures |r| > 0 && forall i :: 0 <= i < |r| ==> '0' <= r[i] <= '9'
    ensures |r| > 1 ==> r[0] != '0'
    decreases n
  {
    if n < 10 then [DigitChar(n)] else NatToString(n / 10) + [DigitChar(n % 10)]
  }

  /** The digits NatToString writes denote n: reading them back gives n. */
  lemma {:induction false} NatToStringValue(n: nat)
    ensures DecValue(NatToString(n)) == n
    decreases n
  {
    var s := NatToString(n);
    if n < 10 {
      assert s[..|s| - 1] == [];
    } else {
      NatToStringValue(n / 10);
      assert s[..|s| - 1] == NatToString(n / 10);
      assert DigitValue(s[|s| - 1]) == n % 10;
    }
  }

  /** Distinct numbers get distinct texts. */
  lemma NatToStringInjective(m: nat, n: nat)
    requires NatToString(m) == NatToString(n)
    ensures m == n
  {
    NatToStringValue(m);
    NatToStringValue(n);
  }

  /** `toString` of an integral number: its decimal digits, with a leading '-' when negative. */
  function NumberToString(n: int): (r: string)
    ensures |r| > 0 && (r[0] == '-' <==> n < 0)
    ensures n >= 0 ==> r == NatToString(n)
    ensures n < 0 ==> r == "-" + NatToString(-n)
  {
    if n < 0 then "-" + NatToString(-n) else NatToString(n)
  }

  /**
   * `v.toString()` for the values whose text the model knows: numbers,
   * strings and booleans. None where the call throws (null, undefined),
   * where the text depends on the host's time zone (a Date), and for other
   * objects, whose text depends on their class and own `toString`.
   */
  function ToStr(v: Value): (r: Option<string>)
    ensures r.Some? <==> v.Num? || v.Str? || v.Bool?
    ensures v.Str? ==> r == Some(v.s)
    ensures v.Bool? ==> r == Some(if v.b then "true" else "false")
    ensures v.Num? ==> r == Some(NumberToString(v.n))
  {
    match v
    case Num(n) => Some(NumberToString(n))
    case Str(s) => Some(s)
    case Bool(b) => Some(if b then "true" else "false")
    case Obj => None
    case DateV(_) => None
    case Null => None
    case Undefined => None
  }

  /**
   * What sortBy's comparator compares for a cell of a column of type t
   * (None when the column is unknown): the raw value for numeric and date
   * columns, the upper-cased `toString()` for every other type. None where
   * the comparison is not modelled: `toString()` throwing, depending on
   * the time zone or on an object's class, and JavaScript's coercion of a
   * non-number compared with `<` in a numeric or date column.
   */
  function SortKey(t: Option<ColType>, v: Value): (r: Option<Key>)
    ensures t == Some(Numeric) || t == Some(Date) ==>
      && (v.Num? ==> r == Some(IntKey(v.n)))
      && (v.DateV? ==> r == Some(IntKey(v.ms)))
      && (!(v.Num? || v.DateV?) ==> r.None?)
    ensures !(t == Some(Numeric) || t == Some(Date)) ==>
      && (ToStr(v).Some? ==> r == Some(StrKey(Upper(ToStr(v).value))))
      && (ToStr(v).None? ==> r.None?)
      && (r.Some? ==> Upper(r.value.s) == r.value.s)
  {
    if t == Some(Numeric) || t == Some(Date) then
      match v
      case Num(n) => Some(IntKey(n))
      case DateV(ms) => Some(IntKey(ms))
      case _ => None
    else
      match ToStr(v)
      case Some(s) => Some(StrKey(Upper(s)))
      case None => None
  }

  /** The text comparator ignores ASCII case: a string and its upper-cased form tie. */
  lemma TextKeyIgnoresCase(s: string)
    ensures SortKey(Some(Text), Str(s)) == SortKey(Some(Text), Str(Upper(s)))
  {
    assert Upper(Upper(s)) == Upper(s);
  }

  /** "banana" and "BANANA" tie in a text column. */
  lemma BananaTie()
    ensures SortKey(Some(Text), Str("banana")) == SortKey(Some(Text), Str("BANANA"))
  {
    TextKeyIgnoresCase("banana");
    assert Upper("banana") == "BANANA";
  }

  /**
   * The comparator's key for a row. A row whose key is undefined never
   * reaches it: sortBy demands Keyed rows whenever the comparator runs.
   */
  function RowKey(t: Option<ColType>, column: string): (key: Row -> Key)
    ensures forall row :: SortKey(t, Cell(row, column)).Some? ==> key(row) == SortKey(t, Cell(row, column)).value
  {
    row => SortKey(t, Cell(row, column)).GetOr(StrKey(""))
  }

  /** Every row has a defined sort key in this column. */
  predicate Keyed(rows: seq<Row>, t: Option<ColType>, column: string)
  {
    forall i :: 0 <= i < |rows| ==> SortKey(t, Cell(rows[i], column)).Some?
  }
}
