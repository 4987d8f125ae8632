/** Rows, schemas and WHERE conditions: the value layer of `src/table.c`. */
module Rows {
  type byte = x: int | 0 <= x < 256

  /** A signed 64-bit key. */
  const KEY_MIN: int := -0x8000_0000_0000_0000
  const KEY_END: int := 0x8000_0000_0000_0000
  type Key = k: int | KEY_MIN <= k < KEY_END

  const VALUE_TEXT_MAX_LEN: nat := 255
  const MAX_TABLE_COLUMNS: nat := 8
  const LEAF_NODE_SPACE_FOR_CELLS: nat := 4082
  const KEY_SIZE: nat := 8

  datatype Option<+T> = None | Some(value: T)

  datatype ColumnType = INTEGER | TEXT | BOOLEAN
  datatype Column = Column(name: string, kind: ColumnType)
  datatype Schema = Schema(columns: seq<Column>, pk: nat)

  /** A stored value; a TEXT value is its whole 255-byte buffer. */
  datatype Value = IntVal(integer: Key) | TextVal(text: seq<byte>) | BoolVal(flag: bool)
  type Row = seq<Value>

  datatype Literal = IntLit(integer: Key) | StrLit(text: seq<byte>) | BoolLit(flag: bool)

  /** `column = literal`, the only condition the executor understands. */
  datatype Equals = Equals(column: string, value: Literal)

  /** One SET assignment: a resolved column index and the literal. */
  datatype Assign = Assign(column: nat, value: Literal)

  predicate ValueHasType(v: Value, kind: ColumnType) {
    match kind
    case INTEGER => v.IntVal?
    case TEXT => v.TextVal? && |v.text| == VALUE_TEXT_MAX_LEN
    case BOOLEAN => v.BoolVal?
  }

  predicate LiteralHasType(v: Literal, kind: ColumnType) {
    match kind
    case INTEGER => v.IntLit?
    case TEXT => v.StrLit?
    case BOOLEAN => v.BoolLit?
  }

  predicate SchemaOK(s: Schema) {
    && 1 <= |s.columns| <= MAX_TABLE_COLUMNS
    && s.pk < |s.columns|
    && s.columns[s.pk].kind.INTEGER?
  }

  predicate RowHasTypes(columns: seq<Column>, row: Row) {
    && |row| == |columns|
    && forall i :: 0 <= i < |row| ==> ValueHasType(row[i], columns[i].kind)
  }

  predicate RowOK(s: Schema, row: Row) { RowHasTypes(s.columns, row) }

  /** `strnlen`: the number of bytes before the first NUL. */
  function StrLen(text: seq<byte>): (n: nat)
    ensures n <= |text|
    ensures forall i :: 0 <= i < n ==> text[i] != 0
    ensures n < |text| ==> text[n] == 0
  {
    if text == [] || text[0] == 0 then 0 else 1 + StrLen(text[1..])
  }

  /** The text a buffer denotes. */
  function Visible(text: seq<byte>): seq<byte> { text[..StrLen(text)] }

  function Zeros(n: nat): (z: seq<byte>)
    ensures |z| == n
  {
    seq(n, _ => 0)
  }

  /** A text that ends before its buffer does: `strlen` stays inside. */
  predicate TextEnds(v: Value) { v.TextVal? ==> StrLen(v.text) < |v.text| }

  /** Every text of the row has a NUL in the last byte of its buffer. */
  ghost predicate RowEnded(row: Row) {
    forall x :: 0 <= x < |row| && row[x].TextVal? && row[x].text != [] ==> row[x].text[|row[x].text| - 1] == 0
  }

  function Lower(c: char): char { if 'A' <= c <= 'Z' then c - 'A' + 'a' else c }

  /** `strncasecmp` on names of equal length. */
  predicate ColumnNameIs(column: string, name: string) {
    |column| == |name| && forall i :: 0 <= i < |name| ==> Lower(column[i]) == Lower(name[i])
  }

  /** The first column with this name, or |columns| when there is none. */
  function FindColumn(columns: seq<Column>, name: string): (i: nat)
    ensures i <= |columns|
    ensures i < |columns| ==> ColumnNameIs(name, columns[i].name)
    ensures forall j :: 0 <= j < i ==> !ColumnNameIs(name, columns[j].name)
  {
    if columns == [] || ColumnNameIs(name, columns[0].name) then 0
    else 1 + FindColumn(columns[1..], name)
  }

  predicate LiteralEquals(v: Value, lit: Literal) {
    match v
    case IntVal(i) => lit == IntLit(i)
    case TextVal(t) => lit == StrLit(Visible(t))
    case BoolVal(b) => lit == BoolLit(b)
  }

  /** `row_matches_where`: no condition matches every row, an unknown column none. */
  predicate Matches(s: Schema, where: Option<Equals>, row: Row) {
    match where
    case None => true
    case Some(eq) =>
      var i := FindColumn(s.columns, eq.column);
      i < |row| && LiteralEquals(row[i], eq.value)
  }

  /** The literal of a condition has the type of the column it is compared with. */
  predicate WhereTyped(s: Schema, where: Option<Equals>) {
    where.Some? ==>
      var i := FindColumn(s.columns, where.value.column);
      i < |s.columns| ==> LiteralHasType(where.value.value, s.columns[i].kind)
  }

  /** The text a condition compares in this row ends inside its buffer. */
  predicate ComparedTextEnds(s: Schema, where: Option<Equals>, row: Row) {
    where.Some? && where.value.value.StrLit? ==>
      var i := FindColumn(s.columns, where.value.column);
      i < |row| ==> TextEnds(row[i])
  }

  lemma EndedTextEnds(s: Schema, where: Option<Equals>, row: Row)
    requires RowOK(s, row) && RowEnded(row)
    ensures ComparedTextEnds(s, where, row)
  {
    if where.Some? {
      var i := FindColumn(s.columns, where.value.column);
      assert i < |row| ==> ValueHasType(row[i], s.columns[i].kind);
    }
  }

  predicate IsPrimaryKey(s: Schema, name: string)
    requires SchemaOK(s)
  {
    ColumnNameIs(name, s.columns[s.pk].name)
  }

  /** A literal written into a zeroed value slot (INSERT). */
  function FreshValue(lit: Literal): Value
    requires lit.StrLit? ==> |lit.text| <= VALUE_TEXT_MAX_LEN
  {
    match lit
    case IntLit(i) => IntVal(i)
    case StrLit(t) => TextVal(t + Zeros(VALUE_TEXT_MAX_LEN - |t|))
    case BoolLit(b) => BoolVal(b)
  }

  predicate TextFits(lit: Literal) { lit.StrLit? ==> |lit.text| <= VALUE_TEXT_MAX_LEN }

  predicate ValuesFit(values: seq<Literal>) {
    forall i :: 0 <= i < |values| ==> TextFits(values[i])
  }

  /** The values of an INSERT match the table's columns in number and type. */
  predicate ValuesTyped(s: Schema, values: seq<Literal>) {
    |values| == |s.columns| && forall i :: 0 <= i < |values| ==> LiteralHasType(values[i], s.columns[i].kind)
  }

  /** The row an INSERT stores. */
  function RowFrom(values: seq<Literal>): Row
    requires ValuesFit(values)
  {
    seq(|values|, i requires 0 <= i < |values| => FreshValue(values[i]))
  }

  lemma RowFromTyped(s: Schema, values: seq<Literal>)
    requires ValuesTyped(s, values) && ValuesFit(values)
    ensures RowOK(s, RowFrom(values))
  {
  }

  /** A literal copied over an existing value (UPDATE): text overwrites a prefix of the buffer. */
  function Overwrite(v: Value, lit: Literal): Value
    requires lit.StrLit? && v.TextVal? ==> |lit.text| <= |v.text|
  {
    match (v, lit)
    case (IntVal(_), IntLit(i)) => IntVal(i)
    case (TextVal(t), StrLit(u)) => TextVal(u + t[|u|..])
    case (BoolVal(_), BoolLit(b)) => BoolVal(b)
    case _ => v
  }

  predicate AssignOK(s: Schema, a: Assign) {
    a.column < |s.columns| && LiteralHasType(a.value, s.columns[a.column].kind)
  }

  predicate AssignsOK(s: Schema, sets: seq<Assign>) {
    forall j :: 0 <= j < |sets| ==> AssignOK(s, sets[j])
  }

  predicate AllTextFits(sets: seq<Assign>) {
    forall j :: 0 <= j < |sets| ==> TextFits(sets[j].value)
  }

  /** The row after the SET list has been applied left to right. */
  function ApplySets(s: Schema, row: Row, sets: seq<Assign>): (r: Row)
    requires RowOK(s, row) && AssignsOK(s, sets) && AllTextFits(sets)
    ensures RowOK(s, r)
    decreases |sets|
  {
    if sets == [] then row
    else
      var front := ApplySets(s, row, sets[..|sets| - 1]);
      var a := sets[|sets| - 1];
      assert AssignOK(s, a) && TextFits(a.value);
      front[a.column := Overwrite(front[a.column], a.value)]
  }

  function ColumnWidth(kind: ColumnType): nat {
    match kind
    case INTEGER => 8
    case TEXT => VALUE_TEXT_MAX_LEN
    case BOOLEAN => 1
  }

  function RowSize(columns: seq<Column>): nat {
    if columns == [] then 0
    else RowSize(columns[..|columns| - 1]) + ColumnWidth(columns[|columns| - 1].kind)
  }

  /** `leaf_node_max_cells` of the table's row size. */
  function LeafMaxCells(s: Schema): nat { LEAF_NODE_SPACE_FOR_CELLS / (KEY_SIZE + RowSize(s.columns)) }

  lemma RowSizeBounds(columns: seq<Column>, pk: nat)
    requires pk < |columns| && columns[pk].kind.INTEGER?
    ensures 8 + (|columns| - 1) <= RowSize(columns) <= 8 + 255 * (|columns| - 1)
  {
    var n := |columns| - 1;
    if pk < n {
      RowSizeBounds(columns[..n], pk);
    } else {
      RowSizeAny(columns[..n]);
    }
  }

  lemma RowSizeAny(columns: seq<Column>)
    ensures |columns| <= RowSize(columns) <= 255 * |columns|
  {
  }

  /** Every legal schema leaves room for at least two and at most 255 cells in a leaf. */
  lemma LeafCapacity(s: Schema)
    requires SchemaOK(s)
    ensures 2 <= LeafMaxCells(s) <= 255
  {
    RowSizeBounds(s.columns, s.pk);
  }
}
