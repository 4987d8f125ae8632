/** What SQL statements mean, on tables as maps from key to row. */
module Semantics {
  import opened Rows
  import opened Meanings
  import opened Pages
  import opened Trees
  import opened Bulk
  import opened LeafInserts
  import opened Updates
  import opened Scans
  import opened Planner
  import opened Databases

  datatype NamedValue = NamedValue(column: string, value: Literal)

  datatype Statement =
    | CreateTable(name: string, schema: Schema)
    | InsertInto(table: string, values: seq<Literal>)
    | Query(table: string, select: Select)
    | UpdateSet(table: string, sets: seq<NamedValue>, where: Option<Equals>)
    | DeleteRowsOf(table: string, where: Option<Equals>)

  // What statements mean

  /** A table as its user sees it: a map from primary key to row. */
  datatype TableState = TableState(name: string, schema: Schema, rows: map<Key, Row>)

  function FindTable(db: seq<TableState>, name: string): (i: nat)
    ensures i <= |db|
    ensures i < |db| ==> ColumnNameIs(name, db[i].name)
    ensures forall j :: 0 <= j < i ==> !ColumnNameIs(name, db[j].name)
  {
    if db == [] || ColumnNameIs(name, db[0].name) then 0 else 1 + FindTable(db[1..], name)
  }

  /** The column and type checks at the head of `update_command`. */
  function Resolve(s: Schema, sets: seq<NamedValue>): (r: Option<seq<Assign>>)
    ensures r.Some? ==> AssignsOK(s, r.value) && |r.value| == |sets|
  {
    if sets == [] then Some([])
    else
      var front := Resolve(s, sets[..|sets| - 1]);
      var last := sets[|sets| - 1];
      var i := FindColumn(s.columns, last.column);
      if front.None? || i == |s.columns| || !LiteralHasType(last.value, s.columns[i].kind) then None
      else Some(front.value + [Assign(i, last.value)])
  }

  /** INSERT finds nothing wrong with the values, and the key is new. */
  predicate CanInsert(s: Schema, rows: map<Key, Row>, values: seq<Literal>) {
    SchemaOK(s) && ValuesTyped(s, values) && NewKey(s, values) !in rows && ValuesFit(values)
  }

  function RowsAfterInsert(s: Schema, rows: map<Key, Row>, values: seq<Literal>): map<Key, Row> {
    if CanInsert(s, rows, values)
    then rows[NewKey(s, values) := RowFrom(values)] else rows
  }

  /** UPDATE finds nothing wrong with the SET list, or no row to try it on. */
  predicate CanUpdate(s: Schema, rows: map<Key, Row>, where: Option<Equals>, sets: seq<NamedValue>) {
    match Resolve(s, sets)
    case None => false
    case Some(assigns) => AllTextFits(assigns) || forall k :: k in rows ==> !Matches(s, where, rows[k])
  }

  function RowsAfterUpdate(s: Schema, rows: map<Key, Row>, where: Option<Equals>, sets: seq<NamedValue>): map<Key, Row> {
    match Resolve(s, sets)
    case None => rows
    case Some(assigns) => UpdatedRows(s, rows, where, assigns)
  }

  /** The rows of a table after a statement that names it. */
  function NewRows(ts: TableState, st: Statement): map<Key, Row> {
    match st
    case InsertInto(_, values) => RowsAfterInsert(ts.schema, ts.rows, values)
    case UpdateSet(_, sets, where) => RowsAfterUpdate(ts.schema, ts.rows, where, sets)
    case DeleteRowsOf(_, where) => KeptRows(ts.schema, ts.rows, where)
    case _ => ts.rows
  }

  /** The database after a statement, as far as its user can tell. */
  function Apply(db: seq<TableState>, st: Statement): seq<TableState> {
    match st
    case CreateTable(name, schema) =>
      if FindTable(db, name) < |db| || |db| >= MAX_CATALOG_TABLES then db else db + [TableState(name, schema, map[])]
    case Query(_, _) => db
    case _ =>
      var i := FindTable(db, st.table);
      if i == |db| then db else db[i := db[i].(rows := NewRows(db[i], st))]
  }

  function ApplyAll(db: seq<TableState>, sts: seq<Statement>): seq<TableState>
    decreases |sts|
  {
    if sts == [] then db else Apply(ApplyAll(db, sts[..|sts| - 1]), sts[|sts| - 1])
  }

  /** What the user is told of a statement other than SELECT: done, or refused. */
  function ChangeReply(db: seq<TableState>, st: Statement): Reply {
    match st
    case CreateTable(name, schema) => if FindTable(db, name) < |db| || |db| >= MAX_CATALOG_TABLES then Refused else Done
    case _ =>
      var i := FindTable(db, st.table);
      if i < |db| && CanChange(db[i], st) then Done else Refused
  }

  predicate CanChange(ts: TableState, st: Statement) {
    match st
    case InsertInto(_, values) => CanInsert(ts.schema, ts.rows, values)
    case UpdateSet(_, sets, where) => CanUpdate(ts.schema, ts.rows, where, sets)
    case _ => true
  }

  /** What the user is told. Running out of page numbers is the one reply that ends a session. */
  datatype Reply = Done | Answer(rows: seq<Row>) | Refused | OutOfSpace

  // What a statement must be like for the code to have a meaning

  const NAME_MAX: nat := 31

  /** What the parser and the catalog layout demand: exactly one INTEGER primary key, names that leave
      room for their NUL, and texts out of NUL-terminated SQL. */
  ghost predicate StatementOK(st: Statement) {
    match st
    case CreateTable(name, schema) => SchemaOK(schema) && |name| <= NAME_MAX && forall c <- schema.columns :: |c.name| <= NAME_MAX
    case InsertInto(_, values) => NulFreeValues(values)
    case UpdateSet(_, sets, _) => forall j :: 0 <= j < |sets| && sets[j].value.StrLit? ==> NulFree(sets[j].value.text)
    case _ => true
  }

  /** No text literal of the statement fills its buffer to the last byte. */
  ghost predicate ShortTexts(st: Statement) {
    match st
    case InsertInto(_, values) => forall j :: 0 <= j < |values| && values[j].StrLit? ==> |values[j].text| != VALUE_TEXT_MAX_LEN
    case UpdateSet(_, sets, _) => forall j :: 0 <= j < |sets| && sets[j].value.StrLit? ==> |sets[j].value.text| != VALUE_TEXT_MAX_LEN
    case _ => true
  }

  /** The condition of an UPDATE or DELETE compares values of one type, and texts that end. */
  ghost predicate ConditionMeant(ts: TableState, where: Option<Equals>) {
    WhereTyped(ts.schema, where) && forall k :: k in ts.rows ==> ComparedTextEnds(ts.schema, where, ts.rows[k])
  }

  /** The condition of a SELECT: the scan may also look at stale rows, the lookup takes the literal for a key. */
  ghost predicate QueryMeant(t: Tree, s: Schema, where: Option<Equals>)
    requires SchemaOK(s)
  {
    && WhereTyped(s, where) && KeyConditionTyped(s, where)
    && forall c :: c in AllSlots(t) ==> ComparedTextEnds(s, where, c.row)
  }

  /** A condition on the primary key compares it with an integer. */
  predicate KeyConditionTyped(s: Schema, where: Option<Equals>)
    requires SchemaOK(s)
  {
    where.Some? && IsPrimaryKey(s, where.value.column) ==> where.value.value.IntLit?
  }

  /** The planner answers this condition with a lookup. */
  predicate ByKey(s: Schema, where: Option<Equals>)
    requires SchemaOK(s)
  {
    where.Some? && IsPrimaryKey(s, where.value.column)
  }

  // What statements are asked and answer

  ghost predicate Enumerates(cells: seq<Cell>, rows: map<Key, Row>) {
    SortedCells(cells) && forall c: Cell :: c in cells <==> c.key in rows && rows[c.key] == c.row
  }

  function Selected(s: Schema, sel: Select, cells: seq<Cell>): seq<Row> {
    var rows := FilterRows(s, sel.where, RowsOf(cells));
    if |sel.columns| > 0 then ProjectRows(s, sel.columns, rows) else rows
  }

  /** `validate_columns`. */
  predicate ColumnsKnown(s: Schema, sel: Select) {
    && (sel.where.Some? ==> FindColumn(s.columns, sel.where.value.column) < |s.columns|)
    && forall i :: 0 <= i < |sel.columns| ==> FindColumn(s.columns, sel.columns[i]) < |s.columns|
  }

  lemma {:induction false} ResolvedLiterals(s: Schema, sets: seq<NamedValue>)
    requires Resolve(s, sets).Some?
    ensures forall j :: 0 <= j < |sets| ==> Resolve(s, sets).value[j].value == sets[j].value
    decreases |sets|
  {
    if sets != [] {
      ResolvedLiterals(s, sets[..|sets| - 1]);
    }
  }

  lemma {:induction false} ResolvedColumns(s: Schema, sets: seq<NamedValue>, column: nat)
    requires forall j :: 0 <= j < |sets| ==> FindColumn(s.columns, sets[j].column) != column
    ensures Resolve(s, sets).Some? ==> !Assigned(Resolve(s, sets).value, column)
    decreases |sets|
  {
    if sets != [] {
      ResolvedColumns(s, sets[..|sets| - 1], column);
    }
  }
}
