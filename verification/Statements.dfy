/** SQL statements against the stored tables: the commands of `src/table.c` and the SELECT branch of `src/command.c`. */
module Statements {
  import opened Rows
  import opened Pages
  import opened Trees
  import opened Chains
  import opened Pagers
  import opened Inserts
  import opened LeafInserts
  import opened Bulk
  import opened Updates
  import opened Scans
  import opened Planner
  import opened Cursors
  import opened Databases
  import opened Occupancy
  import opened Semantics
  import opened Effects

  // The stored database as table states

  ghost function StateAt(h: Heap, shapes: seq<Shape>, i: nat): TableState
    requires DatabaseOK(h, shapes) && i < |shapes|
  {
    TableFacts(h, shapes, i);
    TableState(h[0].tables[i].name, h[0].tables[i].schema, Contents(TreeAt(h, shapes, i)))
  }

  ghost function StateOf(h: Heap, shapes: seq<Shape>): (db: seq<TableState>)
    requires DatabaseOK(h, shapes)
    ensures |db| == |shapes|
    ensures forall i :: 0 <= i < |shapes| ==> db[i] == StateAt(h, shapes, i)
  {
    seq(|shapes|, i requires 0 <= i < |shapes| => StateAt(h, shapes, i))
  }

  ghost predicate NoHolesIn(h: Heap, shapes: seq<Shape>, i: nat)
    requires HasCatalog(h, shapes) && i < |shapes|
  {
    LaterLeavesNonEmpty(TreeAt(h, shapes, i))
  }

  /** No leaf but a table's first is empty. */
  ghost predicate NoHoles(h: Heap, shapes: seq<Shape>)
    requires HasCatalog(h, shapes)
  {
    forall i {:trigger NoHolesIn(h, shapes, i)} :: 0 <= i < |shapes| ==> NoHolesIn(h, shapes, i)
  }

  /** Every stored key is its row's primary-key value. */
  ghost predicate KeysMatchRows(db: seq<TableState>) {
    forall i, k {:trigger db[i].rows[k]} :: 0 <= i < |db| && k in db[i].rows ==>
      db[i].schema.pk < |db[i].rows[k]| && db[i].rows[k][db[i].schema.pk] == IntVal(k)
  }

  lemma StateTyped(h: Heap, shapes: seq<Shape>, i: nat)
    requires DatabaseOK(h, shapes) && i < |shapes|
    ensures RowsTyped(StateAt(h, shapes, i).schema, StateAt(h, shapes, i).rows)
  {
    var t, ts := TreeAt(h, shapes, i), StateAt(h, shapes, i);
    TableFacts(h, shapes, i);
    forall k | k in ts.rows
      ensures RowOK(ts.schema, ts.rows[k])
    {
      TypedCells(t, ts.schema, Cell(k, ts.rows[k]));
    }
  }

  lemma KeysMatchTree(h: Heap, shapes: seq<Shape>, i: nat)
    requires DatabaseOK(h, shapes) && i < |shapes| && KeysMatchRows(StateOf(h, shapes))
    ensures KeysAgree(TreeAt(h, shapes, i), h[0].tables[i].schema)
  {
    TableFacts(h, shapes, i);
    var t, ts := TreeAt(h, shapes, i), StateOf(h, shapes)[i];
    forall c | c in CellSet(t)
      ensures ts.schema.pk < |c.row| && c.row[ts.schema.pk] == IntVal(c.key)
    {
      assert ts.rows[c.key] == c.row;
    }
  }

  lemma EntryAfterStep(h: Heap, shapes: seq<Shape>, h': Heap, i: nat, t': Tree, j: nat)
    requires DatabaseOK(h, shapes) && TableStep(h, shapes, h', i, t') && j < |shapes|
    requires DatabaseOK(h', shapes[i := t'.shape]) && WellFormed(t') && TreeAt(h', shapes[i := t'.shape], i) == t'
    ensures StateAt(h', shapes[i := t'.shape], j) ==
            if j == i then StateAt(h, shapes, i).(rows := Contents(t')) else StateAt(h, shapes, j)
    ensures LaterLeavesNonEmpty(TreeAt(h, shapes, j)) && LaterLeavesNonEmpty(t') ==>
              LaterLeavesNonEmpty(TreeAt(h', shapes[i := t'.shape], j))
  {
    if j != i {
      OtherTablesStay(h, shapes, h', i, t', j);
    } else {
      TableFacts(h, shapes, i);
    }
  }

  /** After a step of table i, only that table's rows have changed. */
  lemma StateAfterStep(h: Heap, shapes: seq<Shape>, h': Heap, i: nat, t': Tree)
    requires DatabaseOK(h, shapes) && TableStep(h, shapes, h', i, t')
    ensures DatabaseOK(h', shapes[i := t'.shape]) && WellFormed(t')
    ensures StateOf(h', shapes[i := t'.shape]) == StateOf(h, shapes)[i := StateOf(h, shapes)[i].(rows := Contents(t'))]
  {
    TableStepKeepsDatabase(h, shapes, h', i, t');
    var a, b := StateOf(h, shapes), StateOf(h', shapes[i := t'.shape]);
    forall j | 0 <= j < |shapes|
      ensures b[j] == if j == i then a[i].(rows := Contents(t')) else a[j]
    {
      EntryAfterStep(h, shapes, h', i, t', j);
    }
  }

  lemma HolesAfterStep(h: Heap, shapes: seq<Shape>, h': Heap, i: nat, t': Tree)
    requires DatabaseOK(h, shapes) && TableStep(h, shapes, h', i, t')
    requires NoHoles(h, shapes) && LaterLeavesNonEmpty(t')
    ensures DatabaseOK(h', shapes[i := t'.shape]) && NoHoles(h', shapes[i := t'.shape])
  {
    TableStepKeepsDatabase(h, shapes, h', i, t');
    var shapes' := shapes[i := t'.shape];
    forall j | 0 <= j < |shapes'|
      ensures NoHolesIn(h', shapes', j)
    {
      assert NoHolesIn(h, shapes, j);
      EntryAfterStep(h, shapes, h', i, t', j);
    }
  }

  lemma StateAfterCreate(h: Heap, shapes: seq<Shape>, h': Heap, p: nat, def: TableDef)
    requires Created(h, shapes, h', p, def)
    ensures DatabaseOK(h', shapes + [EmptyShape(p)])
    ensures StateOf(h', shapes + [EmptyShape(p)]) == StateOf(h, shapes) + [TableState(def.name, def.schema, map[])]
    ensures NoHoles(h, shapes) ==> NoHoles(h', shapes + [EmptyShape(p)])
  {
    CreateKeepsDatabase(h, shapes, h', p, def);
    var a, b := StateOf(h, shapes), StateOf(h', shapes + [EmptyShape(p)]);
    forall j | 0 <= j < |b|
      ensures b[j] == if j < |shapes| then a[j] else TableState(def.name, def.schema, map[])
      ensures NoHoles(h, shapes) ==> NoHolesIn(h', shapes + [EmptyShape(p)], j)
    {
      EntryAfterCreate(h, shapes, h', p, def, j);
    }
  }

  lemma EntryAfterCreate(h: Heap, shapes: seq<Shape>, h': Heap, p: nat, def: TableDef, j: nat)
    requires Created(h, shapes, h', p, def) && DatabaseOK(h', shapes + [EmptyShape(p)]) && j <= |shapes|
    ensures StateAt(h', shapes + [EmptyShape(p)], j)
         == if j < |shapes| then StateAt(h, shapes, j) else TableState(def.name, def.schema, map[])
    ensures NoHoles(h, shapes) ==> NoHolesIn(h', shapes + [EmptyShape(p)], j)
  {
    EmptyTreeOK(h', p, def.schema);
    if j < |shapes| {
      CreateLeavesTable(h, shapes, h', p, def, j);
      assert NoHoles(h, shapes) ==> NoHolesIn(h, shapes, j);
    }
  }

  lemma EditedGrows(t: Tree, f: Page -> Page)
    requires WellFormed(t) && Edits(t, f)
    ensures Grows(t, Edited(t, f))
  {
    ChainVisitsLeavesInOrder(t);
  }

  // The statements, one by one

  /** What a finished statement on table i has done: the database is in order and table i has `rows`. */
  ghost predicate Became(h: Heap, shapes: seq<Shape>, h': Heap, shapes': seq<Shape>, i: nat, rows: map<Key, Row>)
    requires DatabaseOK(h, shapes) && i < |shapes|
  {
    && DatabaseOK(h', shapes') && |shapes'| == |shapes|
    && StateOf(h', shapes') == StateOf(h, shapes)[i := StateAt(h, shapes, i).(rows := rows)]
  }

  /** What a statement on table i has done, in the user's terms: it is refused exactly when its names, types, lengths or
      key are wrong, and a finished one does what it says. */
  ghost predicate Fulfilled(h: Heap, shapes: seq<Shape>, i: nat, st: Statement, reply: Reply, h': Heap, shapes': seq<Shape>)
    requires DatabaseOK(h, shapes) && i < |shapes|
  {
    && (reply == Refused <==> !TableAccepts(StateAt(h, shapes, i), st))
    && (reply != OutOfSpace ==>
          && DatabaseOK(h', shapes') && |shapes'| == |shapes|
          && TableDoes(StateAt(h, shapes, i), st, StateAt(h', shapes', i).rows))
  }

  /** Literals free of NUL bytes, and a table whose texts are padded with them. */
  ghost predicate Usual(st: Statement, h: Heap, shapes: seq<Shape>, i: nat)
    requires DatabaseOK(h, shapes) && i < |shapes|
  {
    StatementOK(st) && RowsPadded(StateAt(h, shapes, i).rows)
  }

  lemma BecameFulfilled(h: Heap, shapes: seq<Shape>, i: nat, st: Statement, reply: Reply, h': Heap, shapes': seq<Shape>)
    requires DatabaseOK(h, shapes) && i < |shapes| && !st.CreateTable? && StatementOK(st)
    requires RowsPadded(StateAt(h, shapes, i).rows)
    requires reply == Refused <==> !CanChange(StateAt(h, shapes, i), st)
    requires reply != OutOfSpace ==> Became(h, shapes, h', shapes', i, NewRows(StateAt(h, shapes, i), st))
    ensures Fulfilled(h, shapes, i, st, reply, h', shapes')
  {
    StateTyped(h, shapes, i);
    NewRowsDo(StateAt(h, shapes, i), st);
    if reply != OutOfSpace {
      assert StateOf(h', shapes')[i] == StateAt(h', shapes', i);
    }
  }

  /** What else a finished statement keeps. Only a DELETE may leave a later leaf empty, only a text of full
      length may fill a buffer, and only an INSERT that splits an internal page (not `roomy`) may leave
      the file's parent fields behind. */
  ghost predicate Preserves(st: Statement, roomy: bool, file: seq<Page>, h: Heap, shapes: seq<Shape>, dirty: set<nat>,
                            h': Heap, shapes': seq<Shape>, dirty': set<nat>)
    requires HasCatalog(h, shapes) && HasCatalog(h', shapes')
  {
    && (!st.DeleteRowsOf? && NoHoles(h, shapes) ==> NoHoles(h', shapes'))
    && (ShortTexts(st) && TextsEnded(h, shapes) ==> TextsEnded(h', shapes'))
    && (roomy && ParentsCurrent(file, dirty, h, shapes) ==> ParentsCurrent(file, dirty', h', shapes'))
  }

  /** The statement, on table i, splits no internal page. */
  ghost predicate Roomy(st: Statement, h: Heap, shapes: seq<Shape>, i: nat)
    requires DatabaseOK(h, shapes) && i < |shapes|
  {
    TableFacts(h, shapes, i);
    st.InsertInto? && ValuesTyped(h[0].tables[i].schema, st.values) ==>
      SplitsNoHolder(TreeAt(h, shapes, i), NewKey(h[0].tables[i].schema, st.values))
  }

  lemma PreservesNothingDone(st: Statement, roomy: bool, file: seq<Page>, h: Heap, shapes: seq<Shape>, dirty: set<nat>, dirty': set<nat>)
    requires HasCatalog(h, shapes) && dirty <= dirty'
    ensures Preserves(st, roomy, file, h, shapes, dirty, h, shapes, dirty')
  {
    if ParentsCurrent(file, dirty, h, shapes) {
      forall j | 0 <= j < |shapes|
        ensures ParentsCurrentIn(file, dirty', h, shapes, j)
      {
        assert ParentsCurrentIn(file, dirty, h, shapes, j);
      }
    }
  }

  /** A step of one table preserves what its own tree preserves. */
  lemma StepPreserves(st: Statement, roomy: bool, file: seq<Page>, h: Heap, shapes: seq<Shape>, dirty: set<nat>,
                      h': Heap, i: nat, t': Tree, dirty': set<nat>)
    requires DatabaseOK(h, shapes) && TableStep(h, shapes, h', i, t') && dirty <= dirty'
    requires forall p: nat :: p < |file| ==> p in h
    requires !st.DeleteRowsOf? && LaterLeavesNonEmpty(TreeAt(h, shapes, i)) ==> LaterLeavesNonEmpty(t')
    requires ShortTexts(st) && SlotsEnded(TreeAt(h, shapes, i)) ==> SlotsEnded(t')
    requires roomy ==> UpsStay(TreeAt(h, shapes, i), t')
    ensures DatabaseOK(h', shapes[i := t'.shape])
    ensures Preserves(st, roomy, file, h, shapes, dirty, h', shapes[i := t'.shape], dirty')
  {
    StateAfterStep(h, shapes, h', i, t');
    if !st.DeleteRowsOf? && NoHoles(h, shapes) {
      assert NoHolesIn(h, shapes, i);
      HolesAfterStep(h, shapes, h', i, t');
    }
    if ShortTexts(st) && TextsEnded(h, shapes) {
      assert SlotsEndedIn(h, shapes, i);
      TextsEndedAfterStep(h, shapes, h', i, t');
    }
    if roomy && ParentsCurrent(file, dirty, h, shapes) {
      ParentsAfterStep(file, dirty, dirty', h, shapes, h', i, t');
    }
  }

  lemma Unchanged(h: Heap, shapes: seq<Shape>, i: nat)
    requires DatabaseOK(h, shapes) && i < |shapes|
    ensures Became(h, shapes, h, shapes, i, StateAt(h, shapes, i).rows)
  {
    var db := StateOf(h, shapes);
    assert db[i := db[i].(rows := db[i].rows)] == db;
  }

  /** INSERT on table i. */
  method ExecInsert(pager: Pager, def: TableDef, values: seq<Literal>, ghost st: Statement, ghost shapes: seq<Shape>, ghost i: nat)
    returns (reply: Reply, ghost shapes': seq<Shape>)
    requires pager.Valid() && pager.Recoverable() && DatabaseOK(pager.Heap(), shapes) && i < |shapes| && def == pager.Heap()[0].tables[i]
    requires st.InsertInto? && st.values == values
    modifies pager`cache, pager`dirty, pager`numPages
    ensures old(pager.dirty) <= pager.dirty
    ensures pager.Valid()
    ensures reply != OutOfSpace ==> pager.Recoverable()
    ensures Changed(st, reply, pager.file, old(pager.Heap()), shapes, i, old(pager.dirty), old(pager.numPages),
                    pager.Heap(), shapes', pager.dirty, pager.numPages)
    ensures Usual(st, old(pager.Heap()), shapes, i) ==>
              Fulfilled(old(pager.Heap()), shapes, i, st, reply, pager.Heap(), shapes')
  {
    ghost var h: Heap := pager.Heap();
    ghost var t := TreeAt(h, shapes, i);
    TableFacts(h, shapes, i);
    var r;
    ghost var t';
    r, t' := InsertCommand(pager, def.root, def.schema, values, t);
    InsertChanged(h, shapes, i, st, r, t', pager.file, old(pager.dirty), old(pager.numPages), pager.Heap(), pager.dirty, pager.numPages);
    reply := InsertReply(r);
    shapes' := if r == OutOfPages then shapes else shapes[i := t'.shape];
    if Usual(st, h, shapes, i) {
      BecameFulfilled(h, shapes, i, st, reply, pager.Heap(), shapes');
    }
  }

  function InsertReply(r: InsertOutcome): Reply {
    match r
    case Stored => Done
    case OutOfPages => OutOfSpace
    case _ => Refused
  }

  lemma InsertChanged(h: Heap, shapes: seq<Shape>, i: nat, st: Statement, r: InsertOutcome, t': Tree, file: seq<Page>,
                      dirty: set<nat>, n: nat, h': Heap, dirty': set<nat>, n': nat)
    requires DatabaseOK(h, shapes) && i < |shapes| && TableOK(TreeAt(h, shapes, i), h[0].tables[i].schema) && st.InsertInto?
    requires dirty <= dirty' && (forall p: nat :: p < |file| ==> p in h)
    requires InsertDone(TreeAt(h, shapes, i), h[0].tables[i].schema, st.values, n, r, t', h', n')
    ensures Changed(st, InsertReply(r), file, h, shapes, i, dirty, n, h', if r == OutOfPages then shapes else shapes[i := t'.shape],
                    dirty', n')
  {
    OutcomeReplies(TreeAt(h, shapes, i), h[0].tables[i].schema, st.values, n);
    if r != OutOfPages {
      InsertOutcomeOf(h, shapes, i, st, r == Stored, t', file, dirty, h', dirty');
    }
  }

  /** An insert that finds nothing wrong is stored, unless fewer than three page numbers are left. */
  lemma OutcomeReplies(t: Tree, s: Schema, values: seq<Literal>, numPages: nat)
    requires WellFormed(t) && SchemaOK(s)
    ensures var r := ExpectedOutcome(t, s, values, numPages);
            && (CanInsert(s, Contents(t), values) <==> r == Stored || r == OutOfPages)
            && (r == OutOfPages ==> numPages + 3 > TABLES_MAX_PAGES)
            && (r == Stored ==> InsertPages(t, NewKey(s, values)) <= 3)
  {
    if CanInsert(s, Contents(t), values) {
      InsertNeedsAtMostThreePages(t, NewKey(s, values));
    }
  }

  /** What INSERT leaves behind, whether it has stored the row or not. */
  lemma InsertOutcomeOf(h: Heap, shapes: seq<Shape>, i: nat, st: Statement, stored: bool, t': Tree, file: seq<Page>,
                        dirty: set<nat>, h': Heap, dirty': set<nat>)
    requires DatabaseOK(h, shapes) && i < |shapes| && WellFormed(TreeAt(h, shapes, i)) && st.InsertInto?
    requires dirty <= dirty' && (forall p: nat :: p < |file| ==> p in h)
    requires var s, t := h[0].tables[i].schema, TreeAt(h, shapes, i);
             && (stored <==> CanInsert(s, Contents(t), st.values))
             && if stored then t'.pages == h' && Inserted(t, t', NewCell(s, st.values)) && (Roomy(st, h, shapes, i) ==> UpsStay(t, t'))
                else t' == t && h' == h
    ensures Became(h, shapes, h', shapes[i := t'.shape], i,
                   RowsAfterInsert(h[0].tables[i].schema, StateAt(h, shapes, i).rows, st.values))
    ensures Preserves(st, Roomy(st, h, shapes, i), file, h, shapes, dirty, h', shapes[i := t'.shape], dirty')
  {
    if stored {
      InsertStep(h, shapes, i, t', st, file, dirty, dirty');
    } else {
      SameShapes(shapes, i, t'.shape);
      Unchanged(h, shapes, i);
      PreservesNothingDone(st, Roomy(st, h, shapes, i), file, h, shapes, dirty, dirty');
    }
  }

  lemma InsertStep(h: Heap, shapes: seq<Shape>, i: nat, t': Tree, st: Statement, file: seq<Page>, dirty: set<nat>, dirty': set<nat>)
    requires DatabaseOK(h, shapes) && i < |shapes| && st.InsertInto? && dirty <= dirty'
    requires CanInsert(h[0].tables[i].schema, StateAt(h, shapes, i).rows, st.values)
    requires WellFormed(TreeAt(h, shapes, i)) && (forall p: nat :: p < |file| ==> p in h)
    requires Inserted(TreeAt(h, shapes, i), t', NewCell(h[0].tables[i].schema, st.values))
    requires Roomy(st, h, shapes, i) ==> UpsStay(TreeAt(h, shapes, i), t')
    ensures Became(h, shapes, t'.pages, shapes[i := t'.shape], i,
                   RowsAfterInsert(h[0].tables[i].schema, StateAt(h, shapes, i).rows, st.values))
    ensures Preserves(st, Roomy(st, h, shapes, i), file, h, shapes, dirty, t'.pages, shapes[i := t'.shape], dirty')
  {
    InsertedIsStep(h, shapes, i, t', st.values);
    InsertedContents(TreeAt(h, shapes, i), t', NewCell(h[0].tables[i].schema, st.values));
    StateAfterStep(h, shapes, t'.pages, i, t');
    InsertedEnded(TreeAt(h, shapes, i), t', h[0].tables[i].schema, st);
    StepPreserves(st, Roomy(st, h, shapes, i), file, h, shapes, dirty, t'.pages, i, t', dirty');
  }

  lemma InsertedIsStep(h: Heap, shapes: seq<Shape>, i: nat, t': Tree, values: seq<Literal>)
    requires DatabaseOK(h, shapes) && i < |shapes| && WellFormed(TreeAt(h, shapes, i))
    requires CanInsert(h[0].tables[i].schema, Contents(TreeAt(h, shapes, i)), values)
    requires Inserted(TreeAt(h, shapes, i), t', NewCell(h[0].tables[i].schema, values))
    ensures TableStep(h, shapes, t'.pages, i, t')
  {
    TableFacts(h, shapes, i);
    RowFromTyped(h[0].tables[i].schema, values);
  }

  lemma InsertedEnded(t: Tree, t': Tree, s: Schema, st: Statement)
    requires st.InsertInto? && SchemaOK(s) && ValuesTyped(s, st.values) && ValuesFit(st.values)
    requires Inserted(t, t', NewCell(s, st.values))
    ensures ShortTexts(st) && SlotsEnded(t) ==> SlotsEnded(t')
  {
    if ShortTexts(st) {
      RowFromEnded(st.values);
    }
  }

  lemma RowFromEnded(values: seq<Literal>)
    requires ValuesFit(values)
    requires forall j :: 0 <= j < |values| && values[j].StrLit? ==> |values[j].text| != VALUE_TEXT_MAX_LEN
    ensures RowEnded(RowFrom(values))
  {
    forall x | 0 <= x < |values| && values[x].StrLit?
      ensures FreshValue(values[x]).text[VALUE_TEXT_MAX_LEN - 1] == 0
    {
      assert TextFits(values[x]);
    }
  }

  /** DELETE on table i. */
  method ExecDelete(pager: Pager, def: TableDef, where: Option<Equals>, ghost st: Statement, ghost shapes: seq<Shape>, ghost i: nat)
    requires pager.Valid() && pager.Recoverable() && DatabaseOK(pager.Heap(), shapes) && i < |shapes| && def == pager.Heap()[0].tables[i]
    requires st.DeleteRowsOf? && st.where == where && ConditionMeant(StateAt(pager.Heap(), shapes, i), where)
    modifies pager`cache, pager`dirty
    ensures old(pager.dirty) <= pager.dirty
    ensures pager.Valid() && pager.Recoverable()
    ensures Changed(st, Done, pager.file, old(pager.Heap()), shapes, i, old(pager.dirty), pager.numPages,
                    pager.Heap(), shapes, pager.dirty, pager.numPages)
    ensures RowsGo(def.schema, where, StateAt(old(pager.Heap()), shapes, i).rows, StateAt(pager.Heap(), shapes, i).rows)
  {
    ghost var h: Heap := pager.Heap();
    ghost var t := TreeAt(h, shapes, i);
    TableFacts(h, shapes, i);
    Bulk.DeleteRows(pager, def.root, def.schema, where, t);
    DeleteOutcome(h, shapes, i, where, st, pager.file, old(pager.dirty), pager.Heap(), pager.dirty);
    WasChanged(st, Done, pager.file, h, shapes, i, old(pager.dirty), pager.numPages, pager.Heap(), pager.dirty);
    RowsGone(h, shapes, i, where, pager.Heap());
  }

  lemma RowsGone(h: Heap, shapes: seq<Shape>, i: nat, where: Option<Equals>, h': Heap)
    requires DatabaseOK(h, shapes) && i < |shapes|
    requires Became(h, shapes, h', shapes, i, KeptRows(StateAt(h, shapes, i).schema, StateAt(h, shapes, i).rows, where))
    ensures RowsGo(StateAt(h, shapes, i).schema, where, StateAt(h, shapes, i).rows, StateAt(h', shapes, i).rows)
  {
    StateTyped(h, shapes, i);
    DeleteMeans(StateAt(h, shapes, i).schema, StateAt(h, shapes, i).rows, where);
    assert StateOf(h', shapes)[i] == StateAt(h', shapes, i);
  }

  lemma DeleteOutcome(h: Heap, shapes: seq<Shape>, i: nat, where: Option<Equals>, st: Statement, file: seq<Page>,
                      dirty: set<nat>, h': Heap, dirty': set<nat>)
    requires DatabaseOK(h, shapes) && i < |shapes| && WellFormed(TreeAt(h, shapes, i)) && st.DeleteRowsOf?
    requires dirty <= dirty' && (forall p: nat :: p < |file| ==> p in h)
    requires h' == Edited(TreeAt(h, shapes, i), DeleteEdit(h[0].tables[i].schema, where)).pages
    ensures Became(h, shapes, h', shapes, i, KeptRows(h[0].tables[i].schema, StateAt(h, shapes, i).rows, where))
    ensures Preserves(st, true, file, h, shapes, dirty, h', shapes, dirty')
  {
    DeleteStepDone(h, shapes, i, where);
    DeletePreserves(h, shapes, i, where, st, file, dirty, dirty');
  }

  lemma DeletePreserves(h: Heap, shapes: seq<Shape>, i: nat, where: Option<Equals>, st: Statement, file: seq<Page>,
                        dirty: set<nat>, dirty': set<nat>)
    requires DatabaseOK(h, shapes) && i < |shapes| && WellFormed(TreeAt(h, shapes, i)) && st.DeleteRowsOf?
    requires dirty <= dirty' && (forall p: nat :: p < |file| ==> p in h)
    ensures var h' := Edited(TreeAt(h, shapes, i), DeleteEdit(h[0].tables[i].schema, where)).pages;
            HasCatalog(h', shapes) && Preserves(st, true, file, h, shapes, dirty, h', shapes, dirty')
  {
    var s, t := h[0].tables[i].schema, TreeAt(h, shapes, i);
    TableFacts(h, shapes, i);
    DeleteEdits(t, s, where);
    DeleteKeepsTyped(t, s, where);
    DeleteSlotsStay(t, s, where);
    EditIsStep(h, shapes, i, DeleteEdit(s, where));
    var t' := Edited(t, DeleteEdit(s, where));
    StepPreserves(st, true, file, h, shapes, dirty, t'.pages, i, t', dirty');
    SameShapes(shapes, i, t'.shape);
  }

  /** An edit of cells is a step of its table that allocates nothing. */
  lemma EditIsStep(h: Heap, shapes: seq<Shape>, i: nat, f: Page -> Page)
    requires DatabaseOK(h, shapes) && i < |shapes| && WellFormed(TreeAt(h, shapes, i)) && Edits(TreeAt(h, shapes, i), f)
    requires Typed(Edited(TreeAt(h, shapes, i), f), h[0].tables[i].schema)
    ensures var t' := Edited(TreeAt(h, shapes, i), f); TableStep(h, shapes, t'.pages, i, t') && t'.shape == shapes[i]
  {
    var t := TreeAt(h, shapes, i);
    TableFacts(h, shapes, i);
    EditedKeepsTree(t, f);
    EditedGrows(t, f);
  }

  lemma SameShapes(shapes: seq<Shape>, i: nat, shape: Shape)
    requires i < |shapes| && shape == shapes[i]
    ensures shapes[i := shape] == shapes
  {
  }

  lemma EditDone(h: Heap, shapes: seq<Shape>, i: nat, t': Tree, rows: map<Key, Row>)
    requires DatabaseOK(h, shapes) && TableStep(h, shapes, t'.pages, i, t') && t'.shape == shapes[i]
    requires WellFormed(t') && Contents(t') == rows
    ensures Became(h, shapes, t'.pages, shapes, i, rows)
  {
    StateAfterStep(h, shapes, t'.pages, i, t');
    SameShapes(shapes, i, t'.shape);
  }

  lemma DeleteStepDone(h: Heap, shapes: seq<Shape>, i: nat, where: Option<Equals>)
    requires DatabaseOK(h, shapes) && i < |shapes| && WellFormed(TreeAt(h, shapes, i))
    ensures Became(h, shapes, Edited(TreeAt(h, shapes, i), DeleteEdit(h[0].tables[i].schema, where)).pages, shapes, i,
                   KeptRows(h[0].tables[i].schema, StateAt(h, shapes, i).rows, where))
  {
    var s, t := h[0].tables[i].schema, TreeAt(h, shapes, i);
    TableFacts(h, shapes, i);
    DeleteEdits(t, s, where);
    DeleteKeepsTyped(t, s, where);
    EditIsStep(h, shapes, i, DeleteEdit(s, where));
    DeleteContents(t, s, where);
    EditDone(h, shapes, i, Edited(t, DeleteEdit(s, where)), KeptRows(s, Contents(t), where));
  }

  /** UPDATE on table i. */
  method ExecUpdate(pager: Pager, def: TableDef, sets: seq<NamedValue>, where: Option<Equals>, ghost st: Statement,
                    ghost shapes: seq<Shape>, ghost i: nat)
    returns (reply: Reply)
    requires pager.Valid() && pager.Recoverable() && DatabaseOK(pager.Heap(), shapes) && i < |shapes| && def == pager.Heap()[0].tables[i]
    requires st.UpdateSet? && st.sets == sets && st.where == where
    requires Resolve(def.schema, sets).Some? ==> ConditionMeant(StateAt(pager.Heap(), shapes, i), where)
    modifies pager`cache, pager`dirty
    ensures old(pager.dirty) <= pager.dirty
    ensures pager.Valid() && pager.Recoverable()
    ensures Changed(st, reply, pager.file, old(pager.Heap()), shapes, i, old(pager.dirty), pager.numPages,
                    pager.Heap(), shapes, pager.dirty, pager.numPages)
    ensures reply == Done <==> Updatable(def.schema, StateAt(old(pager.Heap()), shapes, i).rows, where, sets)
    ensures Usual(st, old(pager.Heap()), shapes, i) ==>
              Fulfilled(old(pager.Heap()), shapes, i, st, reply, pager.Heap(), shapes)
  {
    ghost var h: Heap := pager.Heap();
    ghost var t := TreeAt(h, shapes, i);
    TableFacts(h, shapes, i);
    var assigns := Resolve(def.schema, sets);
    var ok := false;
    if assigns.Some? {
      ok := UpdateRows(pager, def.root, def.schema, where, assigns.value, t);
      NoRowMatches(t, def.schema, where);
    }
    UpdateTold(h, shapes, i, st, ok, pager.file, old(pager.dirty), pager.numPages, pager.Heap(), pager.dirty);
    reply := if ok then Done else Refused;
  }

  /** UPDATE told in the user's terms. */
  lemma UpdateTold(h: Heap, shapes: seq<Shape>, i: nat, st: Statement, ok: bool, file: seq<Page>,
                   dirty: set<nat>, n: nat, h': Heap, dirty': set<nat>)
    requires DatabaseOK(h, shapes) && i < |shapes| && WellFormed(TreeAt(h, shapes, i)) && st.UpdateSet?
    requires dirty <= dirty' && (forall p: nat :: p < |file| ==> p in h)
    requires ok == CanUpdate(StateAt(h, shapes, i).schema, StateAt(h, shapes, i).rows, st.where, st.sets)
    requires var assigns := Resolve(h[0].tables[i].schema, st.sets);
             if ok then assigns.Some? && h' == Edited(TreeAt(h, shapes, i), UpdateEdit(h[0].tables[i].schema, st.where, assigns.value)).pages
             else h' == h && (assigns.Some? ==> !AllTextFits(assigns.value))
    ensures ok <==> Updatable(StateAt(h, shapes, i).schema, StateAt(h, shapes, i).rows, st.where, st.sets)
    ensures var reply := if ok then Done else Refused;
            && Changed(st, reply, file, h, shapes, i, dirty, n, h', shapes, dirty', n)
            && (Usual(st, h, shapes, i) ==> Fulfilled(h, shapes, i, st, reply, h', shapes))
  {
    var reply := if ok then Done else Refused;
    UpdateOutcome(h, shapes, i, st.where, st, ok, file, dirty, h', dirty');
    WasChanged(st, reply, file, h, shapes, i, dirty, n, h', dirty');
    StateTyped(h, shapes, i);
    UpdatableMeans(StateAt(h, shapes, i).schema, StateAt(h, shapes, i).rows, st.where, st.sets);
    if Usual(st, h, shapes, i) {
      BecameFulfilled(h, shapes, i, st, reply, h', shapes);
    }
  }

  /** What UPDATE leaves behind, whether it has gone through or not. */
  lemma UpdateOutcome(h: Heap, shapes: seq<Shape>, i: nat, where: Option<Equals>, st: Statement, ok: bool, file: seq<Page>,
                      dirty: set<nat>, h': Heap, dirty': set<nat>)
    requires DatabaseOK(h, shapes) && i < |shapes| && WellFormed(TreeAt(h, shapes, i)) && st.UpdateSet?
    requires dirty <= dirty' && (forall p: nat :: p < |file| ==> p in h)
    requires var assigns := Resolve(h[0].tables[i].schema, st.sets);
             if ok then assigns.Some? && h' == Edited(TreeAt(h, shapes, i), UpdateEdit(h[0].tables[i].schema, where, assigns.value)).pages
             else h' == h && (assigns.Some? ==> !AllTextFits(assigns.value))
    ensures Became(h, shapes, h', shapes, i, RowsAfterUpdate(h[0].tables[i].schema, StateAt(h, shapes, i).rows, where, st.sets))
    ensures Preserves(st, true, file, h, shapes, dirty, h', shapes, dirty')
  {
    var assigns := Resolve(h[0].tables[i].schema, st.sets);
    if ok {
      UpdateStepDone(h, shapes, i, where, assigns.value);
      UpdatePreserves(h, shapes, i, where, st, file, dirty, dirty');
    } else {
      Unchanged(h, shapes, i);
      PreservesNothingDone(st, true, file, h, shapes, dirty, dirty');
      if assigns.Some? {
        OversizedChangesNothing(h[0].tables[i].schema, StateAt(h, shapes, i).rows, where, assigns.value);
      }
    }
  }

  lemma NoRowMatches(t: Tree, s: Schema, where: Option<Equals>)
    requires WellFormed(t)
    ensures (forall c :: c in CellSet(t) ==> !Matches(s, where, c.row))
       <==> (forall k :: k in Contents(t) ==> !Matches(s, where, Contents(t)[k]))
  {
    if forall c :: c in CellSet(t) ==> !Matches(s, where, c.row) {
      forall k | k in Contents(t)
        ensures !Matches(s, where, Contents(t)[k])
      {
        assert Cell(k, Contents(t)[k]) in CellSet(t);
      }
    }
    if forall k :: k in Contents(t) ==> !Matches(s, where, Contents(t)[k]) {
      forall c | c in CellSet(t)
        ensures !Matches(s, where, c.row)
      {
        assert Contents(t)[c.key] == c.row;
      }
    }
  }

  /** Resolving the columns of a SET list leaves its literals as they are. */
  lemma UpdateKeepsRest(t: Tree, s: Schema, where: Option<Equals>, st: Statement)
    requires WellFormed(t) && st.UpdateSet? && Resolve(s, st.sets).Some?
    ensures var t' := Edited(t, UpdateEdit(s, where, Resolve(s, st.sets).value));
            && (LaterLeavesNonEmpty(t) ==> LaterLeavesNonEmpty(t'))
            && (ShortTexts(st) && SlotsEnded(t) ==> SlotsEnded(t'))
            && UpsStay(t, t')
  {
    var assigns := Resolve(s, st.sets).value;
    if LaterLeavesNonEmpty(t) {
      UpdateKeepsLeavesFull(t, s, where, assigns);
    }
    if ShortTexts(st) && SlotsEnded(t) {
      ResolvedLiterals(s, st.sets);
      UpdateKeepsSlotsEnded(t, s, where, assigns);
    }
  }

  lemma UpdatePreserves(h: Heap, shapes: seq<Shape>, i: nat, where: Option<Equals>, st: Statement, file: seq<Page>,
                        dirty: set<nat>, dirty': set<nat>)
    requires DatabaseOK(h, shapes) && i < |shapes| && WellFormed(TreeAt(h, shapes, i)) && st.UpdateSet?
    requires Resolve(h[0].tables[i].schema, st.sets).Some?
    requires dirty <= dirty' && (forall p: nat :: p < |file| ==> p in h)
    ensures var assigns := Resolve(h[0].tables[i].schema, st.sets).value;
            var h' := Edited(TreeAt(h, shapes, i), UpdateEdit(h[0].tables[i].schema, where, assigns)).pages;
            HasCatalog(h', shapes) && Preserves(st, true, file, h, shapes, dirty, h', shapes, dirty')
  {
    var s, t := h[0].tables[i].schema, TreeAt(h, shapes, i);
    var assigns := Resolve(s, st.sets).value;
    TableFacts(h, shapes, i);
    UpdateEdits(t, s, where, assigns);
    UpdateKeepsTyped(t, s, where, assigns);
    EditIsStep(h, shapes, i, UpdateEdit(s, where, assigns));
    var t' := Edited(t, UpdateEdit(s, where, assigns));
    UpdateKeepsRest(t, s, where, st);
    StepPreserves(st, true, file, h, shapes, dirty, t'.pages, i, t', dirty');
    SameShapes(shapes, i, t'.shape);
  }

  lemma OversizedChangesNothing(s: Schema, rows: map<Key, Row>, where: Option<Equals>, sets: seq<Assign>)
    requires !AllTextFits(sets)
    ensures UpdatedRows(s, rows, where, sets) == rows
  {
  }

  lemma UpdateStepDone(h: Heap, shapes: seq<Shape>, i: nat, where: Option<Equals>, sets: seq<Assign>)
    requires DatabaseOK(h, shapes) && i < |shapes| && WellFormed(TreeAt(h, shapes, i))
    ensures Became(h, shapes, Edited(TreeAt(h, shapes, i), UpdateEdit(h[0].tables[i].schema, where, sets)).pages, shapes, i,
                   UpdatedRows(h[0].tables[i].schema, StateAt(h, shapes, i).rows, where, sets))
  {
    var s, t := h[0].tables[i].schema, TreeAt(h, shapes, i);
    TableFacts(h, shapes, i);
    UpdateEdits(t, s, where, sets);
    UpdateKeepsTyped(t, s, where, sets);
    EditIsStep(h, shapes, i, UpdateEdit(s, where, sets));
    UpdateRefinesMap(t, s, where, sets);
    EditDone(h, shapes, i, Edited(t, UpdateEdit(s, where, sets)), UpdatedRows(s, Contents(t), where, sets));
  }

  lemma UpdateKeepsLeavesFull(t: Tree, s: Schema, where: Option<Equals>, sets: seq<Assign>)
    requires WellFormed(t) && LaterLeavesNonEmpty(t)
    ensures LaterLeavesNonEmpty(Edited(t, UpdateEdit(s, where, sets)))
  {
    var t' := Edited(t, UpdateEdit(s, where, sets));
    forall p | p in t'.shape && p in t'.pages && t'.pages[p].Leaf? && t'.shape[p].lo != KEY_MIN
      ensures t'.pages[p].num > 0
    {
      PageFacts(t, 0, p);
    }
  }

  /** The writes of `create_table`: a new root leaf and a longer catalog. */
  method WriteTable(pager: Pager, name: string, schema: Schema) returns (ok: bool, p: nat)
    requires pager.Valid() && pager.RecoverableBut({0}) && 0 in pager.cache && pager.cache[0].Catalog?
    modifies pager`cache, pager`dirty, pager`numPages
    ensures old(pager.dirty) <= pager.dirty
    ensures pager.Valid() && p == old(pager.numPages) && p !in old(pager.Heap()) && (ok <==> p < TABLES_MAX_PAGES)
    ensures ok ==> pager.Recoverable()
    ensures ok ==> pager.Heap() == old(pager.Heap())[p := Leaf(true, 0, 0, 0, [])]
                                     [0 := Catalog(old(pager.cache[0]).tables + [TableDef(name, p, schema)])]
    ensures !ok ==> pager.Heap() == old(pager.Heap())
    ensures pager.numPages == if ok then p + 1 else p
  {
    var tables := pager.cache[0].tables;
    ok, p := WriteFreshBut(pager, Leaf(true, 0, 0, 0, []));
    if ok {
      pager.Write(0, Catalog(tables + [TableDef(name, p, schema)]));
      pager.MarkDirty(0);
    }
  }

  method WriteFreshBut(pager: Pager, page: Page) returns (ok: bool, p: nat)
    requires pager.Valid() && pager.RecoverableBut({0}) && 0 in pager.cache
    modifies pager`cache, pager`dirty, pager`numPages
    ensures old(pager.dirty) <= pager.dirty
    ensures pager.Valid() && pager.RecoverableBut({0})
    ensures p == old(pager.numPages) && p !in old(pager.Heap()) && (ok <==> p < TABLES_MAX_PAGES)
    ensures ok ==> pager.cache == old(pager.cache)[p := page] && pager.Heap() == old(pager.Heap())[p := page]
    ensures !ok ==> pager.Heap() == old(pager.Heap())
    ensures pager.numPages == if ok then p + 1 else p
  {
    ok, p := pager.GetFreshPage();
    if ok {
      pager.Write(p, page);
      pager.MarkDirty(p);
    }
  }

  /** `create_table`. */
  method ExecCreate(pager: Pager, name: string, schema: Schema, ghost st: Statement, ghost shapes: seq<Shape>)
    returns (ok: bool, ghost shapes': seq<Shape>)
    requires pager.Valid() && pager.RecoverableBut({0}) && DatabaseOK(pager.Heap(), shapes)
    requires st == CreateTable(name, schema) && StatementOK(st) && |shapes| < MAX_CATALOG_TABLES
    modifies pager`cache, pager`dirty, pager`numPages
    ensures old(pager.dirty) <= pager.dirty
    ensures pager.Valid() && (ok <==> old(pager.numPages) < TABLES_MAX_PAGES)
    ensures pager.numPages == old(pager.numPages) + if ok then 1 else 0
    ensures ok ==> pager.Recoverable()
    ensures ok ==> DatabaseOK(pager.Heap(), shapes') && |shapes'| > 0
    ensures ok ==> StateOf(pager.Heap(), shapes') == StateOf(old(pager.Heap()), shapes) + [TableState(name, schema, map[])]
    ensures ok ==> Preserves(st, true, pager.file, old(pager.Heap()), shapes, old(pager.dirty), pager.Heap(), shapes', pager.dirty)
    ensures !ok ==> pager.Heap() == old(pager.Heap())
  {
    shapes' := shapes;
    var catalog := pager.Fetch(0);
    var p;
    ok, p := WriteTable(pager, name, schema);
    if ok {
      ghost var h: Heap := old(pager.Heap());
      StateAfterCreate(h, shapes, pager.Heap(), p, TableDef(name, p, schema));
      CreatePreserves(st, pager.file, h, shapes, old(pager.dirty), pager.Heap(), p, TableDef(name, p, schema), pager.dirty);
      shapes' := shapes + [EmptyShape(p)];
    }
  }

  lemma CreatePreserves(st: Statement, file: seq<Page>, h: Heap, shapes: seq<Shape>, dirty: set<nat>,
                        h': Heap, p: nat, def: TableDef, dirty': set<nat>)
    requires Created(h, shapes, h', p, def) && dirty <= dirty'
    ensures HasCatalog(h', shapes + [EmptyShape(p)])
    ensures Preserves(st, true, file, h, shapes, dirty, h', shapes + [EmptyShape(p)], dirty')
  {
    StateAfterCreate(h, shapes, h', p, def);
    if TextsEnded(h, shapes) {
      TextsEndedAfterCreate(h, shapes, h', p, def);
    }
    if ParentsCurrent(file, dirty, h, shapes) {
      ParentsAfterCreate(file, dirty, dirty', h, shapes, h', p, def);
    }
  }

  /** SELECT on table i: with unambiguous columns and keys that agree with their rows, the answer is right
      if and only if the plan is a lookup or no empty leaf shows a stale row that passes. */
  method ExecQuery(pager: Pager, def: TableDef, sel: Select, ghost shapes: seq<Shape>, ghost i: nat) returns (reply: Reply)
    requires pager.Valid() && DatabaseOK(pager.Heap(), shapes) && i < |shapes| && def == pager.Heap()[0].tables[i]
    requires SchemaOK(def.schema) && (Askable(def.schema, sel) ==> QueryMeant(TreeAt(pager.Heap(), shapes, i), def.schema, sel.where))
    modifies pager`cache
    ensures pager.Valid() && pager.Heap() == old(pager.Heap())
    ensures old(pager.Recoverable()) ==> pager.Recoverable()
    ensures (reply == Refused <==> !Askable(def.schema, sel)) && (reply.Answer? || reply.Refused?)
    ensures reply.Answer? && KeysMatchRows(StateOf(pager.Heap(), shapes)) && PkUnshadowed(def.schema) ==>
              (RightAnswer(reply.rows, StateAt(pager.Heap(), shapes, i), sel) <==>
               ByKey(def.schema, sel.where) || NoStaleShown(TreeAt(pager.Heap(), shapes, i), def.schema, sel.where))
  {
    ghost var h: Heap := pager.Heap();
    ghost var t := TreeAt(h, shapes, i);
    TableFacts(h, shapes, i);
    AskableMeans(def.schema, sel);
    if !ColumnsKnown(def.schema, sel) {
      return Refused;
    }
    var rows := RunSelect(pager, def.root, def.schema, sel, t);
    reply := Answer(rows);
    if KeysMatchRows(StateOf(h, shapes)) && PkUnshadowed(def.schema) {
      QueryAnswers(h, shapes, i, sel);
    }
  }

  lemma QueryAnswers(h: Heap, shapes: seq<Shape>, i: nat, sel: Select)
    requires DatabaseOK(h, shapes) && i < |shapes| && KeysMatchRows(StateOf(h, shapes))
    requires TableOK(TreeAt(h, shapes, i), h[0].tables[i].schema)
    requires PkUnshadowed(h[0].tables[i].schema) && KeyConditionTyped(h[0].tables[i].schema, sel.where)
    requires Askable(h[0].tables[i].schema, sel)
    ensures var s, t := h[0].tables[i].schema, TreeAt(h, shapes, i);
            RightAnswer(PlanRows(t, s, BuildPlan(s, t.root, sel)), StateAt(h, shapes, i), sel) <==>
            ByKey(s, sel.where) || NoStaleShown(t, s, sel.where)
  {
    var s, t, ts := h[0].tables[i].schema, TreeAt(h, shapes, i), StateAt(h, shapes, i);
    KeysMatchTree(h, shapes, i);
    PlannerExact(t, s, t.root, sel);
    EnumeratesContents(t);
    assert Meaning(t, s, sel) == Selected(s, sel, InOrder(t));
    StateTyped(h, shapes, i);
    SelectedIsRight(ts, sel, InOrder(t), PlanRows(t, s, BuildPlan(s, t.root, sel)));
  }

  lemma EnumeratesContents(t: Tree)
    requires WellFormed(t)
    ensures Enumerates(InOrder(t), Contents(t))
  {
    InOrderEnumerates(t);
    forall c: Cell
      ensures c in InOrder(t) <==> c.key in Contents(t) && Contents(t)[c.key] == c.row
    {
      if c.key in Contents(t) && Contents(t)[c.key] == c.row {
        assert Cell(c.key, Contents(t)[c.key]) in CellSet(t);
      }
    }
  }

  /** What an INSERT, UPDATE or DELETE needs for its condition to have a meaning. */
  ghost predicate ChangeMeant(ts: TableState, st: Statement) {
    match st
    case UpdateSet(_, sets, where) => Resolve(ts.schema, sets).Some? ==> ConditionMeant(ts, where)
    case DeleteRowsOf(_, where) => ConditionMeant(ts, where)
    case _ => true
  }

  /** What an INSERT, UPDATE or DELETE of table i does: it is refused exactly when it cannot be done, it does what it
      means, or, for an INSERT with fewer than three page numbers left, it breaks off inside its table. */
  ghost predicate Changed(st: Statement, reply: Reply, file: seq<Page>, h: Heap, shapes: seq<Shape>, i: nat, dirty: set<nat>, n: nat,
                          h': Heap, shapes': seq<Shape>, dirty': set<nat>, n': nat)
    requires DatabaseOK(h, shapes) && i < |shapes|
  {
    && (if !CanChange(StateAt(h, shapes, i), st) then reply == Refused
        else reply == Done || (reply == OutOfSpace && st.InsertInto? && n + 3 > TABLES_MAX_PAGES))
    && if reply != OutOfSpace then
         && n <= n' <= n + 3 && Became(h, shapes, h', shapes', i, NewRows(StateAt(h, shapes, i), st))
         && Preserves(st, Roomy(st, h, shapes, i), file, h, shapes, dirty, h', shapes', dirty')
       else
         KeptOutside(h, h', shapes[i].Keys) && shapes' == shapes && (n >= TABLES_MAX_PAGES ==> h' == h)
  }

  /** INSERT, UPDATE and DELETE on a table that exists. */
  method ExecChange(pager: Pager, def: TableDef, st: Statement, ghost shapes: seq<Shape>, ghost i: nat)
    returns (reply: Reply, ghost shapes': seq<Shape>)
    requires pager.Valid() && pager.Recoverable() && DatabaseOK(pager.Heap(), shapes) && i < |shapes| && def == pager.Heap()[0].tables[i]
    requires (st.InsertInto? || st.UpdateSet? || st.DeleteRowsOf?) && ChangeMeant(StateAt(pager.Heap(), shapes, i), st)
    modifies pager`cache, pager`dirty, pager`numPages
    ensures old(pager.dirty) <= pager.dirty
    ensures pager.Valid() && (reply != OutOfSpace ==> pager.Recoverable())
    ensures Changed(st, reply, pager.file, old(pager.Heap()), shapes, i, old(pager.dirty), old(pager.numPages),
                    pager.Heap(), shapes', pager.dirty, pager.numPages)
  {
    if st.InsertInto? {
      reply, shapes' := ExecInsert(pager, def, st.values, st, shapes, i);
      return;
    }
    shapes' := shapes;
    if st.UpdateSet? {
      reply := ExecUpdate(pager, def, st.sets, st.where, st, shapes, i);
    } else {
      ExecDelete(pager, def, st.where, st, shapes, i);
      reply := Done;
    }
  }

  lemma WasChanged(st: Statement, reply: Reply, file: seq<Page>, h: Heap, shapes: seq<Shape>, i: nat, dirty: set<nat>, n: nat,
                   h': Heap, dirty': set<nat>)
    requires DatabaseOK(h, shapes) && i < |shapes| && reply == if CanChange(StateAt(h, shapes, i), st) then Done else Refused
    requires Became(h, shapes, h', shapes, i, NewRows(StateAt(h, shapes, i), st))
    requires Preserves(st, true, file, h, shapes, dirty, h', shapes, dirty')
    ensures Changed(st, reply, file, h, shapes, i, dirty, n, h', shapes, dirty', n)
  {
  }
}
