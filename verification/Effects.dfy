/** What the user of the database may rely on: what every statement accepts, answers and does, in terms of column
    names and literals. */
module Effects {
  import opened Rows
  import opened Pages
  import opened Chains
  import opened Bulk
  import opened Updates
  import opened Scans
  import opened Planner
  import opened Meanings
  import opened Semantics

  // INSERT

  /** As many values as columns, each of its column's type, no text over 255 bytes, and a new key. */
  ghost predicate Insertable(s: Schema, rows: map<Key, Row>, values: seq<Literal>) {
    && SchemaOK(s) && |values| == |s.columns|
    && (forall i :: 0 <= i < |values| ==> LiteralHasType(values[i], s.columns[i].kind))
    && (forall i :: 0 <= i < |values| && values[i].StrLit? ==> |values[i].text| <= 255)
    && forall k :: k in rows ==> values[s.pk] != IntLit(k)
  }

  /** Exactly one row has joined: it shows the values, under the key they give. */
  ghost predicate RowJoins(s: Schema, values: seq<Literal>, rows: map<Key, Row>, rows': map<Key, Row>)
  {
    && s.pk < |values| && values[s.pk].IntLit?
    && var k := values[s.pk].integer;
    && k !in rows && rows'.Keys == rows.Keys + {k} && ShowsAll(rows'[k], values)
    && forall x :: x in rows ==> rows'[x] == rows[x]
  }

  lemma InsertMeans(s: Schema, rows: map<Key, Row>, values: seq<Literal>)
    requires NulFreeValues(values)
    ensures CanInsert(s, rows, values) <==> Insertable(s, rows, values)
    ensures var rows' := RowsAfterInsert(s, rows, values);
            if Insertable(s, rows, values) then RowJoins(s, values, rows, rows') else rows' == rows
  {
    if CanInsert(s, rows, values) {
      RowFromShows(values);
    }
  }

  /** A row just inserted goes under DELETE .. WHERE column = lit if and only if the value given for that
      column was lit. */
  lemma InsertedThenDeleted(s: Schema, rows: map<Key, Row>, values: seq<Literal>, column: string, j: nat, lit: Literal)
    requires Insertable(s, rows, values) && NulFreeValues(values) && FirstNamed(s, column, j)
    ensures values[s.pk].IntLit? && values[s.pk].integer in RowsAfterInsert(s, rows, values)
    ensures values[s.pk].integer !in KeptRows(s, RowsAfterInsert(s, rows, values), Some(Equals(column, lit))) <==> values[j] == lit
  {
    InsertMeans(s, rows, values);
    RowFromTyped(s, values);
    var row := RowFrom(values);
    FoundIsFirst(s, column, j);
    EqualsShown(row[j], lit);
    if Shows(row[j], lit) {
      ShowsOne(row[j], values[j], lit);
    }
  }

  // DELETE

  /** Exactly the rows that meet the condition are gone. */
  ghost predicate RowsGo(s: Schema, where: Option<Equals>, rows: map<Key, Row>, rows': map<Key, Row>) {
    && (forall k :: k in rows' <==> k in rows && !Satisfies(s, where, rows[k]))
    && forall k :: k in rows' ==> rows'[k] == rows[k]
  }

  ghost predicate RowsTyped(s: Schema, rows: map<Key, Row>) { forall k :: k in rows ==> RowOK(s, rows[k]) }

  lemma DeleteMeans(s: Schema, rows: map<Key, Row>, where: Option<Equals>)
    requires RowsTyped(s, rows)
    ensures RowsGo(s, where, rows, KeptRows(s, rows, where))
  {
    forall k | k in rows
      ensures Matches(s, where, rows[k]) <==> Satisfies(s, where, rows[k])
    {
      MatchesMeans(s, where, rows[k]);
    }
  }

  // UPDATE

  /** Some column carries the name, and the first that does has the literal's type. */
  ghost predicate Settable(s: Schema, x: NamedValue) {
    exists c: nat :: FirstNamed(s, x.column, c) && LiteralHasType(x.value, s.columns[c].kind)
  }

  ghost predicate AllSettable(s: Schema, sets: seq<NamedValue>) {
    forall j :: 0 <= j < |sets| ==> Settable(s, sets[j])
  }

  /** A SET list resolves exactly when all of it is settable, each assignment going to the first column of its name. */
  lemma {:induction false} ResolveExact(s: Schema, sets: seq<NamedValue>)
    ensures Resolve(s, sets).Some? <==> AllSettable(s, sets)
    ensures var r := Resolve(s, sets);
            r.Some? ==> forall j :: 0 <= j < |sets| ==>
              FirstNamed(s, sets[j].column, r.value[j].column) && r.value[j].value == sets[j].value
    decreases |sets|
  {
    if sets != [] {
      var n := |sets| - 1;
      ResolveExact(s, sets[..n]);
      SettableFound(s, sets[n]);
      SettableSnoc(s, sets[..n], sets[n]);
      FoundIsFirst(s, sets[n].column, FindColumn(s.columns, sets[n].column));
      assert sets == sets[..n] + [sets[n]];
    }
  }

  lemma SettableSnoc(s: Schema, front: seq<NamedValue>, x: NamedValue)
    ensures AllSettable(s, front + [x]) <==> AllSettable(s, front) && Settable(s, x)
  {
    var sets := front + [x];
    assert sets[|front|] == x && forall j :: 0 <= j < |front| ==> sets[j] == front[j];
    assert AllSettable(s, sets) ==> Settable(s, sets[|front|]) && forall j :: 0 <= j < |front| ==> Settable(s, sets[j]);
  }

  lemma SettableFound(s: Schema, x: NamedValue)
    ensures var i := FindColumn(s.columns, x.column);
            Settable(s, x) <==> i < |s.columns| && LiteralHasType(x.value, s.columns[i].kind)
  {
    FoundIsFirst(s, x.column, FindColumn(s.columns, x.column));
    forall c: nat | FirstNamed(s, x.column, c)
      ensures c == FindColumn(s.columns, x.column)
    {
      FoundIsFirst(s, x.column, c);
    }
  }

  /** UPDATE goes through: the SET list is settable, and no text is over 255 bytes unless no row is to be changed. */
  ghost predicate Updatable(s: Schema, rows: map<Key, Row>, where: Option<Equals>, sets: seq<NamedValue>) {
    && AllSettable(s, sets)
    && ((forall j :: 0 <= j < |sets| && sets[j].value.StrLit? ==> |sets[j].value.text| <= 255)
        || forall k :: k in rows ==> !Satisfies(s, where, rows[k]))
  }

  lemma UpdatableMeans(s: Schema, rows: map<Key, Row>, where: Option<Equals>, sets: seq<NamedValue>)
    requires RowsTyped(s, rows)
    ensures CanUpdate(s, rows, where, sets) <==> Updatable(s, rows, where, sets)
  {
    ResolveExact(s, sets);
    forall k | k in rows
      ensures Matches(s, where, rows[k]) <==> Satisfies(s, where, rows[k])
    {
      MatchesMeans(s, where, rows[k]);
    }
    var r := Resolve(s, sets);
    if r.Some? {
      assert AllTextFits(r.value) <==> forall j :: 0 <= j < |sets| ==> TextFits(sets[j].value) by {
        assert forall j :: 0 <= j < |sets| ==> r.value[j].value == sets[j].value;
      }
    }
  }

  /** Entry j of the SET list is the last to name column c. */
  ghost predicate LastFor(s: Schema, sets: seq<NamedValue>, j: nat, c: nat) {
    && j < |sets| && FirstNamed(s, sets[j].column, c)
    && forall i :: j < i < |sets| ==> !FirstNamed(s, sets[i].column, c)
  }

  /** The text of entry j is no shorter than the text in column c and than all that entries before put there. */
  ghost predicate Covers(s: Schema, sets: seq<NamedValue>, j: nat, c: nat, old_text: seq<byte>)
    requires j < |sets| && sets[j].value.StrLit?
  {
    && StrLen(old_text) <= |sets[j].value.text|
    && forall i :: 0 <= i < j && FirstNamed(s, sets[i].column, c) && sets[i].value.StrLit? ==>
         |sets[i].value.text| <= |sets[j].value.text|
  }

  /** Column c shows the literal of entry j, a text if and only if that covers what lies under it. */
  ghost predicate LastShows(s: Schema, sets: seq<NamedValue>, j: nat, c: nat, v: Value, v': Value)
    requires j < |sets|
  {
    if sets[j].value.StrLit? then v.TextVal? && (Shows(v', sets[j].value) <==> Covers(s, sets, j, c, v.text))
    else Shows(v', sets[j].value)
  }

  /** Column c after the SET list: as it was if no entry names it, otherwise with the literal of the last that does. */
  ghost predicate ColumnSet(s: Schema, sets: seq<NamedValue>, c: nat, v: Value, v': Value) {
    && ((forall j :: 0 <= j < |sets| ==> !FirstNamed(s, sets[j].column, c)) ==> v' == v)
    && forall j: nat :: LastFor(s, sets, j, c) ==> LastShows(s, sets, j, c, v, v')
  }

  ghost predicate RowSet(s: Schema, sets: seq<NamedValue>, row: Row, row': Row) {
    |row'| == |row| && forall c :: 0 <= c < |row| ==> ColumnSet(s, sets, c, row[c], row'[c])
  }

  /** Every row that meets the condition has been set, every other is as it was. */
  ghost predicate RowsSet(s: Schema, where: Option<Equals>, sets: seq<NamedValue>, rows: map<Key, Row>, rows': map<Key, Row>) {
    && rows'.Keys == rows.Keys
    && forall k :: k in rows ==> if Satisfies(s, where, rows[k]) then RowSet(s, sets, rows[k], rows'[k]) else rows'[k] == rows[k]
  }

  ghost predicate NulFreeSets(sets: seq<NamedValue>) {
    forall j :: 0 <= j < |sets| && sets[j].value.StrLit? ==> NulFree(sets[j].value.text)
  }

  ghost predicate RowsPadded(rows: map<Key, Row>) { forall k :: k in rows ==> RowPadded(rows[k]) }

  lemma UpdateMeans(s: Schema, rows: map<Key, Row>, where: Option<Equals>, sets: seq<NamedValue>)
    requires RowsTyped(s, rows) && RowsPadded(rows) && NulFreeSets(sets)
    ensures var rows' := RowsAfterUpdate(s, rows, where, sets);
            if Updatable(s, rows, where, sets) then RowsSet(s, where, sets, rows, rows') else rows' == rows
  {
    var rows' := RowsAfterUpdate(s, rows, where, sets);
    UpdatableMeans(s, rows, where, sets);
    ResolveExact(s, sets);
    forall k | k in rows
      ensures Updatable(s, rows, where, sets) && Satisfies(s, where, rows[k]) ==> RowSet(s, sets, rows[k], rows'[k])
      ensures !Updatable(s, rows, where, sets) || !Satisfies(s, where, rows[k]) ==> rows'[k] == rows[k]
    {
      MatchesMeans(s, where, rows[k]);
      if Updatable(s, rows, where, sets) && Satisfies(s, where, rows[k]) {
        SetsMean(s, sets, rows[k]);
      }
    }
  }

  lemma SetsMean(s: Schema, sets: seq<NamedValue>, row: Row)
    requires RowOK(s, row) && RowPadded(row) && NulFreeSets(sets)
    requires Resolve(s, sets).Some? && AllTextFits(Resolve(s, sets).value)
    ensures RowSet(s, sets, row, ApplySets(s, row, Resolve(s, sets).value))
  {
    var assigns := Resolve(s, sets).value;
    ResolveExact(s, sets);
    forall c | 0 <= c < |row|
      ensures ColumnSet(s, sets, c, row[c], ApplySets(s, row, assigns)[c])
    {
      forall j | 0 <= j < |sets|
        ensures FirstNamed(s, sets[j].column, c) <==> assigns[j].column == c
      {
        FoundIsFirst(s, sets[j].column, c);
        FoundIsFirst(s, sets[j].column, assigns[j].column);
      }
      ColumnSetMeans(s, sets, assigns, row, c);
    }
  }

  lemma ColumnSetMeans(s: Schema, sets: seq<NamedValue>, assigns: seq<Assign>, row: Row, c: nat)
    requires RowOK(s, row) && RowPadded(row) && NulFreeSets(sets) && c < |row|
    requires AssignsOK(s, assigns) && AllTextFits(assigns) && |assigns| == |sets|
    requires forall j :: 0 <= j < |sets| ==> assigns[j].value == sets[j].value
    requires forall j :: 0 <= j < |sets| ==> (FirstNamed(s, sets[j].column, c) <==> assigns[j].column == c)
    ensures ColumnSet(s, sets, c, row[c], ApplySets(s, row, assigns)[c])
  {
    if forall j :: 0 <= j < |sets| ==> !FirstNamed(s, sets[j].column, c) {
      UnassignedStays(s, row, assigns, c);
    }
    forall j: nat | LastFor(s, sets, j, c)
      ensures LastShows(s, sets, j, c, row[c], ApplySets(s, row, assigns)[c])
    {
      LastForMeans(s, sets, assigns, row, c, j);
    }
  }

  lemma LastForMeans(s: Schema, sets: seq<NamedValue>, assigns: seq<Assign>, row: Row, c: nat, j: nat)
    requires RowOK(s, row) && RowPadded(row) && NulFreeSets(sets) && c < |row|
    requires AssignsOK(s, assigns) && AllTextFits(assigns) && |assigns| == |sets|
    requires forall i :: 0 <= i < |sets| ==> assigns[i].value == sets[i].value
    requires forall i :: 0 <= i < |sets| ==> (FirstNamed(s, sets[i].column, c) <==> assigns[i].column == c)
    requires LastFor(s, sets, j, c)
    ensures LastShows(s, sets, j, c, row[c], ApplySets(s, row, assigns)[c])
  {
    LastAssignmentWins(s, row, assigns, j);
    if sets[j].value.StrLit? {
      VisibleShows(ApplySets(s, row, assigns)[c].text, sets[j].value.text);
    } else {
      FreshShows(sets[j].value);
    }
  }

  // SELECT

  /** The answer to a SELECT: one row for every stored row that meets the condition, in the order of the keys,
      showing the columns asked for. */
  ghost predicate RightAnswer(answer: seq<Row>, ts: TableState, sel: Select) {
    exists keys :: Finds(keys, ts.schema, sel.where, ts.rows) && ShowsRows(answer, ts, sel, keys)
  }

  ghost predicate ShowsRows(answer: seq<Row>, ts: TableState, sel: Select, keys: seq<Key>) {
    && |answer| == |keys|
    && forall i :: 0 <= i < |keys| ==> keys[i] in ts.rows && Projects(ts.schema, sel.columns, ts.rows[keys[i]], answer[i])
  }

  /** Every column the SELECT names exists. */
  ghost predicate Askable(s: Schema, sel: Select) {
    (sel.where.Some? ==> Named(s, sel.where.value.column)) && forall i :: 0 <= i < |sel.columns| ==> Named(s, sel.columns[i])
  }

  lemma AskableMeans(s: Schema, sel: Select)
    ensures ColumnsKnown(s, sel) <==> Askable(s, sel)
  {
    if sel.where.Some? {
      FoundIsFirst(s, sel.where.value.column, 0);
    }
    forall i | 0 <= i < |sel.columns|
      ensures Named(s, sel.columns[i]) <==> FindColumn(s.columns, sel.columns[i]) < |s.columns|
    {
      FoundIsFirst(s, sel.columns[i], 0);
    }
  }

  /** The cells whose rows meet the condition. */
  function Hits(s: Schema, where: Option<Equals>, cells: seq<Cell>): seq<Cell> {
    if cells == [] then []
    else (if Matches(s, where, cells[0].row) then [cells[0]] else []) + Hits(s, where, cells[1..])
  }

  lemma {:induction false} HitsAreFiltered(s: Schema, where: Option<Equals>, cells: seq<Cell>)
    ensures RowsOf(Hits(s, where, cells)) == FilterRows(s, where, RowsOf(cells))
  {
    if cells != [] {
      HitsAreFiltered(s, where, cells[1..]);
      var more := Hits(s, where, cells[1..]);
      assert [] + more == more && ([cells[0]] + more)[1..] == more;
      assert RowsOf(cells)[1..] == RowsOf(cells[1..]);
    }
  }

  lemma {:induction false} HitsFacts(s: Schema, where: Option<Equals>, cells: seq<Cell>)
    requires SortedCells(cells)
    ensures SortedCells(Hits(s, where, cells))
    ensures forall c :: c in Hits(s, where, cells) <==> c in cells && Matches(s, where, c.row)
  {
    if cells != [] {
      HitsFacts(s, where, cells[1..]);
      assert forall c :: c in cells <==> c == cells[0] || c in cells[1..];
    }
  }

  lemma {:induction false} RowsOfAt(cells: seq<Cell>)
    ensures |RowsOf(cells)| == |cells| && forall i :: 0 <= i < |cells| ==> RowsOf(cells)[i] == cells[i].row
  {
    if cells != [] {
      RowsOfAt(cells[1..]);
    }
  }

  lemma {:induction false} ProjectRowsAt(s: Schema, columns: seq<string>, rows: seq<Row>)
    ensures forall i :: 0 <= i < |rows| ==> ProjectRows(s, columns, rows)[i] == ProjectRow(s, columns, rows[i])
  {
    if rows != [] {
      ProjectRowsAt(s, columns, rows[1..]);
    }
  }

  /** What a SELECT selects is the right answer, and nothing else is. */
  lemma SelectedIsRight(ts: TableState, sel: Select, cells: seq<Cell>, answer: seq<Row>)
    requires RowsTyped(ts.schema, ts.rows) && Askable(ts.schema, sel) && Enumerates(cells, ts.rows)
    ensures RightAnswer(answer, ts, sel) <==> answer == Selected(ts.schema, sel, cells)
  {
    var hits := Hits(ts.schema, sel.where, cells);
    HitsFacts(ts.schema, sel.where, cells);
    var keys := seq(|hits|, i requires 0 <= i < |hits| => hits[i].key);
    HitKeys(ts, sel.where, cells, keys);
    SelectedShows(ts, sel, cells, keys, answer);
    forall other | Finds(other, ts.schema, sel.where, ts.rows)
      ensures other == keys
    {
      FindsOne(other, keys, ts.schema, sel.where, ts.rows);
    }
  }

  lemma HitKeys(ts: TableState, where: Option<Equals>, cells: seq<Cell>, keys: seq<Key>)
    requires RowsTyped(ts.schema, ts.rows) && Enumerates(cells, ts.rows)
    requires SortedCells(Hits(ts.schema, where, cells)) && |keys| == |Hits(ts.schema, where, cells)|
    requires forall c :: c in Hits(ts.schema, where, cells) <==> c in cells && Matches(ts.schema, where, c.row)
    requires forall i :: 0 <= i < |keys| ==> keys[i] == Hits(ts.schema, where, cells)[i].key
    ensures Finds(keys, ts.schema, where, ts.rows)
    ensures forall i :: 0 <= i < |keys| ==> keys[i] in ts.rows && ts.rows[keys[i]] == Hits(ts.schema, where, cells)[i].row
  {
    var hits := Hits(ts.schema, where, cells);
    forall i | 0 <= i < |keys|
      ensures keys[i] in ts.rows && ts.rows[keys[i]] == hits[i].row
    {
      assert hits[i] in hits;
    }
    forall k: Key
      ensures k in keys <==> k in ts.rows && Satisfies(ts.schema, where, ts.rows[k])
    {
      if k in ts.rows {
        MatchesMeans(ts.schema, where, ts.rows[k]);
        var c := Cell(k, ts.rows[k]);
        assert c in cells;
        if c in hits {
          var i :| 0 <= i < |hits| && hits[i] == c;
          assert keys[i] == k;
        }
      }
      if k in keys {
        var i :| 0 <= i < |keys| && keys[i] == k;
        assert hits[i] in hits && hits[i] == Cell(k, ts.rows[k]);
      }
    }
  }

  lemma FindsOne(a: seq<Key>, b: seq<Key>, s: Schema, where: Option<Equals>, rows: map<Key, Row>)
    requires Finds(a, s, where, rows) && Finds(b, s, where, rows)
    ensures a == b
  {
    var x := seq(|a|, i requires 0 <= i < |a| => Cell(a[i], []));
    var y := seq(|b|, i requires 0 <= i < |b| => Cell(b[i], []));
    CellsOfKeys(a, x);
    CellsOfKeys(b, y);
    SortedEnumerationUnique(x, y);
    assert forall i :: 0 <= i < |a| ==> a[i] == x[i].key == y[i].key == b[i];
  }

  lemma CellsOfKeys(keys: seq<Key>, cells: seq<Cell>)
    requires |cells| == |keys| && forall i :: 0 <= i < |keys| ==> cells[i] == Cell(keys[i], [])
    ensures forall c: Cell :: c in cells <==> c.key in keys && c.row == []
  {
    forall c: Cell
      ensures c in cells <==> c.key in keys && c.row == []
    {
      if c.key in keys && c.row == [] {
        var i :| 0 <= i < |keys| && keys[i] == c.key;
        assert cells[i] == c;
      }
    }
  }

  lemma SelectedShows(ts: TableState, sel: Select, cells: seq<Cell>, keys: seq<Key>, answer: seq<Row>)
    requires RowsTyped(ts.schema, ts.rows) && Askable(ts.schema, sel)
    requires |keys| == |Hits(ts.schema, sel.where, cells)|
    requires forall i :: 0 <= i < |keys| ==> keys[i] in ts.rows && ts.rows[keys[i]] == Hits(ts.schema, sel.where, cells)[i].row
    ensures ShowsRows(answer, ts, sel, keys) <==> answer == Selected(ts.schema, sel, cells)
  {
    var hits := Hits(ts.schema, sel.where, cells);
    HitsAreFiltered(ts.schema, sel.where, cells);
    RowsOfAt(hits);
    var out := Selected(ts.schema, sel, cells);
    if sel.columns != [] {
      ProjectRowsAt(ts.schema, sel.columns, RowsOf(hits));
    }
    forall i | 0 <= i < |keys| && i < |answer|
      ensures Projects(ts.schema, sel.columns, ts.rows[keys[i]], answer[i]) <==> answer[i] == out[i]
    {
      if sel.columns != [] {
        ProjectRowMeans(ts.schema, sel.columns, ts.rows[keys[i]], answer[i]);
      }
    }
  }

  /** A SELECT has one right answer. */
  lemma AnswersUnique(a: seq<Row>, b: seq<Row>, ts: TableState, sel: Select)
    requires RowsTyped(ts.schema, ts.rows) && Askable(ts.schema, sel) && RightAnswer(a, ts, sel) && RightAnswer(b, ts, sel)
    ensures a == b
  {
    var keys :| Finds(keys, ts.schema, sel.where, ts.rows) && ShowsRows(a, ts, sel, keys);
    var others :| Finds(others, ts.schema, sel.where, ts.rows) && ShowsRows(b, ts, sel, others);
    FindsOne(keys, others, ts.schema, sel.where, ts.rows);
    forall i | 0 <= i < |keys|
      ensures a[i] == b[i]
    {
      if sel.columns != [] {
        ProjectRowMeans(ts.schema, sel.columns, ts.rows[keys[i]], a[i]);
        ProjectRowMeans(ts.schema, sel.columns, ts.rows[keys[i]], b[i]);
      }
    }
  }

  // Whole statements

  /** Table i is the first of that name. */
  ghost predicate FirstTable(db: seq<TableState>, name: string, i: nat) {
    i < |db| && ColumnNameIs(name, db[i].name) && forall j :: 0 <= j < i ==> !ColumnNameIs(name, db[j].name)
  }

  lemma FoundIsFirstTable(db: seq<TableState>, name: string, i: nat)
    ensures FirstTable(db, name, i) <==> i == FindTable(db, name) < |db|
  {
  }

  /** No table carries the name, in any case, and there are fewer than thirteen. */
  ghost predicate Creatable(db: seq<TableState>, name: string) {
    |db| < 13 && forall i :: 0 <= i < |db| ==> !ColumnNameIs(name, db[i].name)
  }

  ghost predicate TableAccepts(ts: TableState, st: Statement) {
    match st
    case InsertInto(_, values) => Insertable(ts.schema, ts.rows, values)
    case UpdateSet(_, sets, where) => Updatable(ts.schema, ts.rows, where, sets)
    case _ => true
  }

  /** A statement other than SELECT is to be done: its table can be made, or exists and accepts it. */
  ghost predicate Accepted(db: seq<TableState>, st: Statement) {
    if st.CreateTable? then Creatable(db, st.name)
    else exists i: nat :: FirstTable(db, st.table, i) && TableAccepts(db[i], st)
  }

  ghost predicate TableDoes(ts: TableState, st: Statement, rows: map<Key, Row>) {
    if !TableAccepts(ts, st) then rows == ts.rows
    else
      match st
      case InsertInto(_, values) => RowJoins(ts.schema, values, ts.rows, rows)
      case UpdateSet(_, sets, where) => RowsSet(ts.schema, where, sets, ts.rows, rows)
      case DeleteRowsOf(_, where) => RowsGo(ts.schema, where, ts.rows, rows)
      case _ => rows == ts.rows
  }

  /** The statement has turned db into db': a new empty table behind the others, other rows in the first table of
      its name, or nothing. */
  ghost predicate Does(db: seq<TableState>, st: Statement, db': seq<TableState>) {
    match st
    case CreateTable(name, schema) => db' == if Creatable(db, name) then db + [TableState(name, schema, map[])] else db
    case Query(_, _) => db' == db
    case _ =>
      && |db'| == |db|
      && forall i :: 0 <= i < |db| ==>
           if FirstTable(db, st.table, i) then db'[i] == db[i].(rows := db'[i].rows) && TableDoes(db[i], st, db'[i].rows)
           else db'[i] == db[i]
  }

  ghost predicate AllTyped(db: seq<TableState>) {
    forall i :: 0 <= i < |db| ==> RowsTyped(db[i].schema, db[i].rows)
  }

  /** Every stored text is followed by nothing but NUL bytes. */
  ghost predicate TextsPadded(db: seq<TableState>) { forall i :: 0 <= i < |db| ==> RowsPadded(db[i].rows) }

  /** Every statement does what its names and literals say, and is accepted exactly when it can be done. */
  lemma ApplyDoes(db: seq<TableState>, st: Statement)
    requires StatementOK(st) && AllTyped(db) && TextsPadded(db)
    ensures Does(db, st, Apply(db, st))
    ensures !st.Query? ==> (ChangeReply(db, st) == Done <==> Accepted(db, st))
  {
    if !st.CreateTable? {
      var i := FindTable(db, st.table);
      forall j: nat | j < |db|
        ensures FirstTable(db, st.table, j) <==> j == i
      {
        FoundIsFirstTable(db, st.table, j);
      }
      if i < |db| {
        NewRowsDo(db[i], st);
      }
    }
  }

  lemma NewRowsDo(ts: TableState, st: Statement)
    requires StatementOK(st) && !st.CreateTable? && RowsTyped(ts.schema, ts.rows) && RowsPadded(ts.rows)
    ensures TableDoes(ts, st, NewRows(ts, st)) && (CanChange(ts, st) <==> TableAccepts(ts, st))
  {
    match st
    case InsertInto(_, values) => InsertMeans(ts.schema, ts.rows, values);
    case UpdateSet(_, sets, where) =>
      UpdateMeans(ts.schema, ts.rows, where, sets);
      UpdatableMeans(ts.schema, ts.rows, where, sets);
    case DeleteRowsOf(_, where) => DeleteMeans(ts.schema, ts.rows, where);
    case _ =>
  }
}
