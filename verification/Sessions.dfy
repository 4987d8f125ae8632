/** The database as an object, and whole sessions on it: `process_command` of `src/command.c`. */
module Sessions {
  import opened Rows
  import opened Pages
  import opened Trees
  import opened Pagers
  import opened Inserts
  import opened LeafInserts
  import opened Updates
  import opened Scans
  import opened Planner
  import opened Databases
  import opened Meanings
  import opened Semantics
  import opened Effects
  import opened Statements
  import opened Bulk
  import opened Occupancy

  // Keys and rows

  /** The statement leaves primary keys alone. */
  predicate KeepsKeys(db: seq<TableState>, st: Statement) {
    st.UpdateSet? ==>
      var i := FindTable(db, st.table);
      i < |db| && db[i].schema.pk < |db[i].schema.columns| ==>
        forall j :: 0 <= j < |st.sets| ==> FindColumn(db[i].schema.columns, st.sets[j].column) != db[i].schema.pk
  }

  /** No statement but an UPDATE of a primary key makes a row disagree with its key. */
  lemma ApplyKeepsKeys(db: seq<TableState>, st: Statement)
    requires KeysMatchRows(db) && KeepsKeys(db, st)
    requires forall i :: 0 <= i < |db| ==> SchemaOK(db[i].schema)
    ensures KeysMatchRows(Apply(db, st))
  {
    var db' := Apply(db, st);
    forall i, k | 0 <= i < |db'| && k in db'[i].rows
      ensures db'[i].schema.pk < |db'[i].rows[k]| && db'[i].rows[k][db'[i].schema.pk] == IntVal(k)
    {
      if i < |db| {
        if k in db[i].rows {
          assert db[i].rows[k][db[i].schema.pk] == IntVal(k);
        }
        if !st.CreateTable? && !st.Query? && i == FindTable(db, st.table) {
          NewRowsKeepKeys(db[i], st, k);
        }
      }
    }
  }

  lemma NewRowsKeepKeys(ts: TableState, st: Statement, k: Key)
    requires SchemaOK(ts.schema) && k in NewRows(ts, st)
    requires k in ts.rows ==> ts.schema.pk < |ts.rows[k]| && ts.rows[k][ts.schema.pk] == IntVal(k)
    requires st.UpdateSet? ==> forall j :: 0 <= j < |st.sets| ==> FindColumn(ts.schema.columns, st.sets[j].column) != ts.schema.pk
    ensures ts.schema.pk < |NewRows(ts, st)[k]| && NewRows(ts, st)[k][ts.schema.pk] == IntVal(k)
  {
    if st.UpdateSet? {
      var assigns := Resolve(ts.schema, st.sets);
      if assigns.Some? {
        ResolvedColumns(ts.schema, st.sets, ts.schema.pk);
        if UpdatedRow(ts.schema, st.where, assigns.value, ts.rows[k]) != ts.rows[k] {
          UnassignedStays(ts.schema, ts.rows[k], assigns.value, ts.schema.pk);
        }
      }
    } else if st.InsertInto? && k !in ts.rows {
      RowFromTyped(ts.schema, st.values);
    }
  }

  // Texts

  /** Every statement keeps stored texts padded. */
  lemma ApplyKeepsPadding(db: seq<TableState>, st: Statement)
    requires TextsPadded(db) && StatementOK(st)
    ensures TextsPadded(Apply(db, st))
  {
    var db' := Apply(db, st);
    forall i, k | 0 <= i < |db'| && k in db'[i].rows
      ensures RowPadded(db'[i].rows[k])
    {
      if i < |db| {
        if k in db[i].rows {
          assert RowPadded(db[i].rows[k]);
        }
        if !st.CreateTable? && !st.Query? && i == FindTable(db, st.table) {
          NewRowsPadded(db[i], st, k);
        }
      }
    }
  }

  lemma NewRowsPadded(ts: TableState, st: Statement, k: Key)
    requires StatementOK(st) && k in NewRows(ts, st) && (k in ts.rows ==> RowPadded(ts.rows[k]))
    ensures RowPadded(NewRows(ts, st)[k])
  {
    if st.UpdateSet? {
      var assigns := Resolve(ts.schema, st.sets);
      if assigns.Some? {
        ResolvedLiterals(ts.schema, st.sets);
        UpdatedRowPadded(ts.schema, st.where, assigns.value, ts.rows[k]);
      }
    } else if st.InsertInto? && k !in ts.rows {
      forall x | 0 <= x < |st.values| && st.values[x].StrLit?
        ensures ZeroPadded(FreshValue(st.values[x]).text)
      {
        assert TextFits(st.values[x]);
        FreshTextReadsBack(st.values[x].text);
      }
    }
  }

  /** Whatever statements have run on a new database, every stored text is padded. */
  lemma {:induction false} ReachableTextsPadded(sts: seq<Statement>)
    requires forall j :: 0 <= j < |sts| ==> StatementOK(sts[j])
    ensures TextsPadded(ApplyAll([], sts))
    decreases |sts|
  {
    if sts != [] {
      ReachableTextsPadded(sts[..|sts| - 1]);
      ApplyKeepsPadding(ApplyAll([], sts[..|sts| - 1]), sts[|sts| - 1]);
    }
  }

  /** Every statement keeps stored rows of their tables' types. */
  lemma ApplyKeepsTypes(db: seq<TableState>, st: Statement)
    requires AllTyped(db)
    ensures AllTyped(Apply(db, st))
  {
    var db' := Apply(db, st);
    forall i, k | 0 <= i < |db'| && k in db'[i].rows
      ensures RowOK(db'[i].schema, db'[i].rows[k])
    {
      if i < |db| {
        assert RowsTyped(db[i].schema, db[i].rows);
        if !st.CreateTable? && !st.Query? && i == FindTable(db, st.table) && st.InsertInto? && k !in db[i].rows {
          RowFromTyped(db[i].schema, st.values);
        }
      }
    }
  }

  lemma {:induction false} ReachableTyped(sts: seq<Statement>)
    ensures AllTyped(ApplyAll([], sts))
    decreases |sts|
  {
    if sts != [] {
      ReachableTyped(sts[..|sts| - 1]);
      ApplyKeepsTypes(ApplyAll([], sts[..|sts| - 1]), sts[|sts| - 1]);
    }
  }

  /** In any run of statements on a new database, each of them does what its names and literals say and is accepted
      exactly when it can be done. */
  lemma SessionDoes(sts: seq<Statement>, j: nat)
    requires j < |sts| && forall i :: 0 <= i < |sts| ==> StatementOK(sts[i])
    ensures var db := ApplyAll([], sts[..j]);
            && Does(db, sts[j], ApplyAll([], sts[..j + 1]))
            && (!sts[j].Query? ==> (ChangeReply(db, sts[j]) == Done <==> Accepted(db, sts[j])))
  {
    ReachableTyped(sts[..j]);
    ReachableTextsPadded(sts[..j]);
    PrefixStep([], sts, j);
    ApplyDoes(ApplyAll([], sts[..j]), sts[j]);
  }

  /** In any database whose texts are padded, after an UPDATE of table i the last text assigned to a column
      of a matching row is what a reader finds there if and only if no longer text lies under it. */
  lemma StatementTextReadsBack(h: Heap, shapes: seq<Shape>, i: nat, st: Statement, sets: seq<Assign>, j: nat, k: Key)
    requires DatabaseOK(h, shapes) && i < |shapes| && TextsPadded(StateOf(h, shapes)) && k in StateAt(h, shapes, i).rows
    requires st.UpdateSet? && StatementOK(st) && Resolve(h[0].tables[i].schema, st.sets) == Some(sets) && AllTextFits(sets)
    requires j < |sets| && sets[j].value.StrLit? && forall x :: j < x < |sets| ==> sets[x].column != sets[j].column
    ensures var ts := StateAt(h, shapes, i);
            k in NewRows(ts, st) && ShowsLastText(ts.schema, st.where, sets, j, ts.rows[k], NewRows(ts, st)[k])
  {
    TableFacts(h, shapes, i);
    StoredTextsPadded(h, shapes, i);
    TableTextReadsBack(TreeAt(h, shapes, i), StateAt(h, shapes, i), st, sets, j, k);
  }

  lemma TableTextReadsBack(t: Tree, ts: TableState, st: Statement, sets: seq<Assign>, j: nat, k: Key)
    requires WellFormed(t) && Typed(t, ts.schema) && PaddedTree(t) && ts.rows == Contents(t) && k in ts.rows
    requires st.UpdateSet? && StatementOK(st) && Resolve(ts.schema, st.sets) == Some(sets) && AllTextFits(sets)
    requires j < |sets| && sets[j].value.StrLit? && forall x :: j < x < |sets| ==> sets[x].column != sets[j].column
    ensures k in NewRows(ts, st) && ShowsLastText(ts.schema, st.where, sets, j, ts.rows[k], NewRows(ts, st)[k])
  {
    ResolvedLiterals(ts.schema, st.sets);
    UpdateTextReadsBack(t, ts.schema, st.where, sets, j, k);
    UpdateRefinesMap(t, ts.schema, st.where, sets);
  }

  lemma StoredTextsPadded(h: Heap, shapes: seq<Shape>, i: nat)
    requires DatabaseOK(h, shapes) && i < |shapes| && TextsPadded(StateOf(h, shapes))
    ensures PaddedTree(TreeAt(h, shapes, i))
  {
    TableFacts(h, shapes, i);
    var rows := StateOf(h, shapes)[i].rows;
    forall c | c in CellSet(TreeAt(h, shapes, i))
      ensures RowPadded(c.row)
    {
      assert rows[c.key] == c.row;
    }
  }

  // What sessions ask for

  /** The condition of a statement, if it has one. */
  function WhereOf(st: Statement): Option<Equals> {
    match st
    case Query(_, select) => select.where
    case UpdateSet(_, _, where) => where
    case DeleteRowsOf(_, where) => where
    case _ => None
  }

  predicate ComparesText(st: Statement) { WhereOf(st).Some? && WhereOf(st).value.value.StrLit? }

  /** The condition of a statement compares values of one type. */
  ghost predicate TypedIn(db: seq<TableState>, st: Statement) {
    st.CreateTable? ||
      var i := FindTable(db, st.table);
      i < |db| && SchemaOK(db[i].schema) ==>
        match st
        case Query(_, select) => Askable(db[i].schema, select) ==>
          WhereTyped(db[i].schema, select.where) && KeyConditionTyped(db[i].schema, select.where)
        case _ => WhereTyped(db[i].schema, WhereOf(st))
  }

  /** The table a failed statement may have left half way: that of an INSERT. */
  function BrokenTable(db: seq<TableState>, st: Statement): nat {
    if st.InsertInto? then FindTable(db, st.table) else |db|
  }

  /** Every table but `broken` is in order and holds what db says. */
  ghost predicate Survives(h: Heap, shapes: seq<Shape>, db: seq<TableState>, broken: nat) {
    && HasCatalog(h, shapes) && |shapes| == |db|
    && forall j {:trigger db[j]} :: 0 <= j < |db| && j != broken ==> TableSurvives(h, shapes, j, db[j].name, db[j].schema, db[j].rows)
  }

  /** The reply to a SELECT: refused for an unknown table or column, otherwise the one right answer
      (given that no earlier column shadows the primary key). */
  ghost predicate AnsweredRight(db: seq<TableState>, st: Statement, reply: Reply)
    requires st.Query?
  {
    var i := FindTable(db, st.table);
    if i == |db| || !Askable(db[i].schema, st.select) then reply == Refused
    else
      && SchemaOK(db[i].schema) && reply.Answer?
      && (PkUnshadowed(db[i].schema) ==> RightAnswer(reply.rows, db[i], st.select))
  }

  /** The SELECT is answered by a primary-key lookup. */
  predicate LooksUp(db: seq<TableState>, st: Statement)
    requires st.Query?
  {
    var i := FindTable(db, st.table);
    i < |db| && SchemaOK(db[i].schema) && ByKey(db[i].schema, st.select.where)
  }

  // Sessions

  predicate NoDeletes(sts: seq<Statement>) {
    forall j :: 0 <= j < |sts| ==> !sts[j].DeleteRowsOf?
  }

  predicate KeepsKeysInTurn(db: seq<TableState>, sts: seq<Statement>, j: nat)
    requires j < |sts|
  {
    KeepsKeys(ApplyAll(db, sts[..j]), sts[j])
  }

  /** No statement of the session updates a primary key. */
  predicate AllKeepKeys(db: seq<TableState>, sts: seq<Statement>) {
    forall j {:trigger KeepsKeysInTurn(db, sts, j)} :: 0 <= j < |sts| ==> KeepsKeysInTurn(db, sts, j)
  }

  ghost predicate AllShort(sts: seq<Statement>) {
    forall j :: 0 <= j < |sts| ==> ShortTexts(sts[j])
  }

  predicate ComparesTexts(sts: seq<Statement>) {
    exists j :: 0 <= j < |sts| && ComparesText(sts[j])
  }

  ghost predicate OKInTurn(db: seq<TableState>, sts: seq<Statement>, j: nat)
    requires j < |sts|
  {
    StatementOK(sts[j]) && TypedIn(ApplyAll(db, sts[..j]), sts[j])
  }

  /** Every statement has a meaning when its turn comes; and if some condition compares texts, no text
      fills its buffer. */
  ghost predicate SessionOK(db: seq<TableState>, sts: seq<Statement>, ended: bool) {
    && (forall j {:trigger OKInTurn(db, sts, j)} :: 0 <= j < |sts| ==> OKInTurn(db, sts, j))
    && (ComparesTexts(sts) ==> ended && AllShort(sts))
  }

  /** The reply to the j-th statement: exact for a change; the one right answer for a SELECT by primary key, and
      for any SELECT as long as no DELETE has run. */
  ghost predicate ReplyRight(db: seq<TableState>, sts: seq<Statement>, j: nat, reply: Reply, gapless: bool, keys: bool)
    requires j < |sts|
  {
    var before := ApplyAll(db, sts[..j]);
    if sts[j].Query? then keys && ((gapless && NoDeletes(sts[..j])) || LooksUp(before, sts[j])) ==> AnsweredRight(before, sts[j], reply)
    else reply == ChangeReply(before, sts[j])
  }

  ghost predicate RepliesRight(db: seq<TableState>, sts: seq<Statement>, replies: seq<Reply>, gapless: bool, keys: bool) {
    |replies| <= |sts| && forall j {:trigger ReplyRight(db, sts, j, replies[j], gapless, keys)} :: 0 <= j < |replies| ==>
      ReplyRight(db, sts, j, replies[j], gapless, keys)
  }

  lemma RepliesSnoc(db: seq<TableState>, sts: seq<Statement>, replies: seq<Reply>, reply: Reply, gapless: bool, keys: bool)
    requires |replies| < |sts| && RepliesRight(db, sts, replies, gapless, keys) && ReplyRight(db, sts, |replies|, reply, gapless, keys)
    ensures RepliesRight(db, sts, replies + [reply], gapless, keys)
  {
    var longer := replies + [reply];
    forall j | 0 <= j < |longer|
      ensures ReplyRight(db, sts, j, longer[j], gapless, keys)
    {
      if j < |replies| {
        assert ReplyRight(db, sts, j, replies[j], gapless, keys);
      }
    }
  }

  /** What was true when a session began: no holes, no text that fills its buffer, parent fields current
      in the file, and keys that agree with their rows and are left alone. */
  datatype Began = Began(gapless: bool, ended: bool, parents: bool, keys: bool)

  /** Where a session breaks off for want of page numbers: at a statement that had to be done, with
      every table as the statements before it left it, but for the table of an INSERT. */
  ghost predicate BrokeOff(db: seq<TableState>, st: Statement, h: Heap, shapes: seq<Shape>) {
    ChangeReply(db, st) == Done && Survives(h, shapes, db, BrokenTable(db, st))
  }

  lemma PrefixStep(db: seq<TableState>, sts: seq<Statement>, k: nat)
    requires k < |sts|
    ensures ApplyAll(db, sts[..k + 1]) == Apply(ApplyAll(db, sts[..k]), sts[k])
    ensures NoDeletes(sts[..k + 1]) <==> NoDeletes(sts[..k]) && !sts[k].DeleteRowsOf?
  {
    assert sts[..k + 1][..k] == sts[..k];
    assert sts[..k + 1] == sts[..k] + [sts[k]];
  }

  /** What one statement does to a database in order. If it finishes, the tables hold what it means, the reply
      says whether it was done, at most three pages are new, and what it preserves is preserved. If the
      page numbers run out, it was a statement that had to be done, and at most the table of an INSERT is
      left half way (none, if there was no page number left to begin with). */
  ghost predicate Ran(st: Statement, reply: Reply, roomy: bool, file: seq<Page>,
                      h: Heap, shapes: seq<Shape>, dirty: set<nat>, n: nat,
                      h': Heap, shapes': seq<Shape>, dirty': set<nat>, n': nat)
    requires DatabaseOK(h, shapes)
  {
    var db := StateOf(h, shapes);
    if reply == OutOfSpace then
      && n + 3 > TABLES_MAX_PAGES && ChangeReply(db, st) == Done
      && Survives(h', shapes', db, if n < TABLES_MAX_PAGES then BrokenTable(db, st) else |db|)
    else
      && DatabaseOK(h', shapes') && StateOf(h', shapes') == Apply(db, st) && n <= n' <= n + 3
      && (!st.Query? ==> reply == ChangeReply(db, st))
      && Preserves(st, roomy, file, h, shapes, dirty, h', shapes', dirty')
  }

  /** What has run has done what its names and literals say. */
  lemma RanDoes(st: Statement, reply: Reply, roomy: bool, file: seq<Page>, h: Heap, shapes: seq<Shape>, dirty: set<nat>, n: nat,
                h': Heap, shapes': seq<Shape>, dirty': set<nat>, n': nat)
    requires DatabaseOK(h, shapes) && StatementOK(st)
    requires Ran(st, reply, roomy, file, h, shapes, dirty, n, h', shapes', dirty', n')
    ensures TextsPadded(StateOf(h, shapes)) ==>
              && (reply != OutOfSpace ==> DatabaseOK(h', shapes') && Does(StateOf(h, shapes), st, StateOf(h', shapes')))
              && (!st.Query? ==> (reply == Refused <==> !Accepted(StateOf(h, shapes), st)))
  {
    if TextsPadded(StateOf(h, shapes)) {
      StatesTyped(h, shapes);
      ApplyDoes(StateOf(h, shapes), st);
    }
  }

  lemma StatesTyped(h: Heap, shapes: seq<Shape>)
    requires DatabaseOK(h, shapes)
    ensures AllTyped(StateOf(h, shapes))
  {
    forall i | 0 <= i < |shapes|
      ensures RowsTyped(StateOf(h, shapes)[i].schema, StateOf(h, shapes)[i].rows)
    {
      StateTyped(h, shapes, i);
      assert StateOf(h, shapes)[i] == StateAt(h, shapes, i);
    }
  }

  lemma NothingRan(st: Statement, reply: Reply, roomy: bool, file: seq<Page>, h: Heap, shapes: seq<Shape>, dirty: set<nat>, dirty': set<nat>, n: nat)
    requires DatabaseOK(h, shapes) && dirty <= dirty' && reply != OutOfSpace && Apply(StateOf(h, shapes), st) == StateOf(h, shapes)
    requires !st.Query? ==> reply == ChangeReply(StateOf(h, shapes), st)
    ensures Ran(st, reply, roomy, file, h, shapes, dirty, n, h, shapes, dirty', n)
  {
    PreservesNothingDone(st, roomy, file, h, shapes, dirty, dirty');
  }

  lemma AllSurvive(h: Heap, shapes: seq<Shape>)
    requires DatabaseOK(h, shapes)
    ensures Survives(h, shapes, StateOf(h, shapes), |shapes|)
  {
    var db := StateOf(h, shapes);
    forall j | 0 <= j < |shapes|
      ensures TableSurvives(h, shapes, j, db[j].name, db[j].schema, db[j].rows)
    {
      TableFacts(h, shapes, j);
      assert db[j] == StateAt(h, shapes, j);
    }
  }

  lemma OthersSurviveAll(h: Heap, shapes: seq<Shape>, i: nat, h': Heap)
    requires DatabaseOK(h, shapes) && i < |shapes| && KeptOutside(h, h', shapes[i].Keys)
    ensures Survives(h', shapes, StateOf(h, shapes), i)
  {
    var db := StateOf(h, shapes);
    TableFacts(h, shapes, i);
    forall j | 0 <= j < |shapes| && j != i
      ensures TableSurvives(h', shapes, j, db[j].name, db[j].schema, db[j].rows)
    {
      TableFacts(h, shapes, j);
      OthersSurvive(h, shapes, h', i, j);
      assert db[j] == StateAt(h, shapes, j);
    }
  }

  lemma CreateRan(st: Statement, ok: bool, file: seq<Page>, h: Heap, shapes: seq<Shape>, dirty: set<nat>, n: nat,
                  h': Heap, shapes': seq<Shape>, dirty': set<nat>, n': nat)
    requires DatabaseOK(h, shapes) && st.CreateTable? && ChangeReply(StateOf(h, shapes), st) == Done
    requires (ok <==> n < TABLES_MAX_PAGES) && n' == n + if ok then 1 else 0
    requires ok ==> DatabaseOK(h', shapes') && StateOf(h', shapes') == StateOf(h, shapes) + [TableState(st.name, st.schema, map[])]
    requires ok ==> Preserves(st, true, file, h, shapes, dirty, h', shapes', dirty')
    requires !ok ==> h' == h && shapes' == shapes
    ensures Ran(st, if ok then Done else OutOfSpace, true, file, h, shapes, dirty, n, h', shapes', dirty', n')
  {
    if !ok {
      AllSurvive(h, shapes);
    }
  }

  /** An INSERT, UPDATE or DELETE of table i, told of the whole database. */
  lemma ChangeRan(st: Statement, reply: Reply, file: seq<Page>, h: Heap, shapes: seq<Shape>, dirty: set<nat>, n: nat, i: nat,
                  h': Heap, shapes': seq<Shape>, dirty': set<nat>, n': nat)
    requires DatabaseOK(h, shapes) && i < |shapes| && (st.InsertInto? || st.UpdateSet? || st.DeleteRowsOf?)
    requires i == FindTable(StateOf(h, shapes), st.table)
    requires Changed(st, reply, file, h, shapes, i, dirty, n, h', shapes', dirty', n')
    ensures Ran(st, reply, Roomy(st, h, shapes, i), file, h, shapes, dirty, n, h', shapes', dirty', n')
  {
    assert StateOf(h, shapes)[i] == StateAt(h, shapes, i);
    if reply == OutOfSpace {
      OthersSurviveAll(h, shapes, i, h');
      AllSurvive(h, shapes);
    }
  }

  /** Below this many pages no holder can be full. */
  const FEW_PAGES: nat := INTERNAL_NODE_MAX_KEYS + 3

  /** If no slot holds a text that fills its buffer, every text a condition compares ends. */
  lemma ComparedTextsEnd(t: Tree, s: Schema, where: Option<Equals>)
    requires WellFormed(t) && Typed(t, s) && (where.Some? && where.value.value.StrLit? ==> SlotsEnded(t))
    ensures forall c :: c in AllSlots(t) ==> ComparedTextEnds(s, where, c.row)
    ensures forall k :: k in Contents(t) ==> ComparedTextEnds(s, where, Contents(t)[k])
  {
    forall c | c in AllSlots(t)
      ensures ComparedTextEnds(s, where, c.row)
    {
      SlotTextEnds(t, s, where, c);
    }
    forall k | k in Contents(t)
      ensures ComparedTextEnds(s, where, Contents(t)[k])
    {
      CellInSlots(t, Cell(k, Contents(t)[k]));
      SlotTextEnds(t, s, where, Cell(k, Contents(t)[k]));
    }
  }

  lemma SlotTextEnds(t: Tree, s: Schema, where: Option<Equals>, c: Cell)
    requires Typed(t, s) && (where.Some? && where.value.value.StrLit? ==> SlotsEnded(t)) && c in AllSlots(t)
    ensures ComparedTextEnds(s, where, c.row)
  {
    if where.Some? && where.value.value.StrLit? {
      assert RowOK(s, c.row) && RowEnded(c.row);
      EndedTextEnds(s, where, c.row);
    }
  }

  /** What holds after the first k statements of a session that began at `db`. */
  ghost predicate ReachedBy(db: seq<TableState>, sts: seq<Statement>, k: nat, began: Began,
                            file: seq<Page>, h: Heap, shapes: seq<Shape>, dirty: set<nat>, n: nat)
    requires DatabaseOK(h, shapes)
  {
    && k <= |sts| && StateOf(h, shapes) == ApplyAll(db, sts[..k])
    && (began.gapless && NoDeletes(sts[..k]) ==> NoHoles(h, shapes))
    && (began.ended && AllShort(sts) ==> TextsEnded(h, shapes))
    && (began.parents && n < FEW_PAGES ==> ParentsCurrent(file, dirty, h, shapes))
    && (began.keys ==> KeysMatchRows(StateOf(h, shapes)) && AllKeepKeys(db, sts))
  }

  /** One more statement keeps all of it. */
  lemma ReachedNext(db: seq<TableState>, sts: seq<Statement>, k: nat, began: Began, reply: Reply, roomy: bool,
                    file: seq<Page>, h: Heap, shapes: seq<Shape>, dirty: set<nat>, n: nat,
                    h': Heap, shapes': seq<Shape>, dirty': set<nat>, n': nat)
    requires k < |sts| && DatabaseOK(h, shapes) && ReachedBy(db, sts, k, began, file, h, shapes, dirty, n)
    requires Ran(sts[k], reply, roomy, file, h, shapes, dirty, n, h', shapes', dirty', n') && reply != OutOfSpace
    requires n < FEW_PAGES ==> roomy
    ensures ReachedBy(db, sts, k + 1, began, file, h', shapes', dirty', n')
  {
    PrefixStep(db, sts, k);
    assert AllShort(sts) ==> ShortTexts(sts[k]);
    if began.keys {
      assert KeepsKeysInTurn(db, sts, k);
      StateSchemas(h, shapes);
      ApplyKeepsKeys(StateOf(h, shapes), sts[k]);
    }
  }

  lemma StateSchemas(h: Heap, shapes: seq<Shape>)
    requires DatabaseOK(h, shapes)
    ensures forall i :: 0 <= i < |shapes| ==> SchemaOK(StateOf(h, shapes)[i].schema)
  {
    forall i | 0 <= i < |shapes|
      ensures SchemaOK(StateOf(h, shapes)[i].schema)
    {
      TableFacts(h, shapes, i);
      assert StateOf(h, shapes)[i] == StateAt(h, shapes, i);
    }
  }

  class Database {
    const pager: Pager
    ghost var shapes: seq<Shape>

    ghost predicate Valid()
      reads this, pager
    {
      && pager.Valid()
      && DatabaseOK(pager.Heap(), shapes)
      && pager.RecoverableBut({0})
      && (shapes != [] ==> pager.Recoverable())
    }

    ghost function State(): (db: seq<TableState>)
      requires Valid()
      reads this, pager
      ensures |db| == |shapes|
    {
      StateOf(pager.Heap(), shapes)
    }

    ghost predicate Gapless()
      requires Valid()
      reads this, pager
    {
      NoHoles(pager.Heap(), shapes)
    }

    /** No slot holds a text that fills its buffer. */
    ghost predicate Ended()
      requires Valid()
      reads this, pager
    {
      TextsEnded(pager.Heap(), shapes)
    }

    /** A restart would bring back every parent field. */
    ghost predicate ParentsInFile()
      requires Valid()
      reads this, pager
    {
      ParentsCurrent(pager.file, pager.dirty, pager.Heap(), shapes)
    }

    /** The statement splits no internal page. */
    ghost predicate RoomyFor(st: Statement)
      requires Valid()
      reads this, pager
    {
      st.InsertInto? && FindTable(State(), st.table) < |shapes| ==> Roomy(st, pager.Heap(), shapes, FindTable(State(), st.table))
    }

    /** The condition of the statement has a meaning on the table it names. */
    ghost predicate Meant(st: Statement)
      requires Valid()
      reads this, pager
    {
      st.CreateTable? ||
        var i := FindTable(State(), st.table);
        i < |shapes| ==>
          if st.Query? then
            SchemaOK(State()[i].schema) && (Askable(State()[i].schema, st.select) ==>
              QueryMeant(TreeAt(pager.Heap(), shapes, i), State()[i].schema, st.select.where))
          else ChangeMeant(State()[i], st)
    }

    /** The plan of this SELECT is a lookup, or its scan shows no stale row that passes. */
    ghost predicate ShowsNoStale(st: Statement)
      requires Valid() && st.Query?
      reads this, pager
    {
      var i := FindTable(State(), st.table);
      i < |shapes| && SchemaOK(State()[i].schema) && Askable(State()[i].schema, st.select) && PkUnshadowed(State()[i].schema) ==>
        ByKey(State()[i].schema, st.select.where)
        || NoStaleShown(TreeAt(pager.Heap(), shapes, i), State()[i].schema, st.select.where)
    }

    lemma LookupOrGapless(st: Statement)
      requires Valid() && st.Query? && (Gapless() || LooksUp(State(), st))
      ensures ShowsNoStale(st)
    {
      var i := FindTable(State(), st.table);
      if Gapless() && i < |shapes| {
        assert NoHolesIn(pager.Heap(), shapes, i);
      }
    }

    /** A new database: page 0 is the empty catalog. */
    constructor ()
      ensures Valid() && fresh(pager) && State() == [] && Gapless() && Ended() && ParentsInFile()
    {
      pager := new Pager.Open([]);
      shapes := [];
      new;
      var page := pager.GetPage(0);
      pager.Write(0, Catalog([]));
    }

    /** A database on a file that has been opened again. */
    constructor Resume(pager: Pager, ghost shapes: seq<Shape>)
      requires pager.Valid() && pager.Recoverable() && DatabaseOK(pager.Heap(), shapes)
      ensures this.pager == pager && this.shapes == shapes && Valid()
    {
      this.pager := pager;
      this.shapes := shapes;
    }

    /** `catalog_node_find_table`. */
    method Lookup(name: string) returns (i: nat, tables: seq<TableDef>)
      requires Valid()
      modifies pager`cache
      ensures Valid() && pager.Heap() == old(pager.Heap())
      ensures tables == pager.Heap()[0].tables && i == FindTable(State(), name)
    {
      var page := pager.Fetch(0);
      tables := page.tables;
      i := 0;
      assert State()[0..] == State();
      while i < |tables| && !ColumnNameIs(name, tables[i].name)
        invariant i <= |tables|
        invariant FindTable(State(), name) == i + FindTable(State()[i..], name)
      {
        assert State()[i] == StateAt(pager.Heap(), shapes, i);
        assert State()[i..][1..] == State()[i + 1..];
        i := i + 1;
      }
      assert i < |tables| ==> State()[i] == StateAt(pager.Heap(), shapes, i);
    }

    /** CREATE TABLE, after the check for an existing table of that name. */
    method Create(st: Statement) returns (reply: Reply)
      requires Valid() && st.CreateTable? && StatementOK(st)
      modifies this`shapes, pager`cache, pager`dirty, pager`numPages
      ensures reply != OutOfSpace ==> Valid()
      ensures Ran(st, reply, true, pager.file, old(pager.Heap()), old(shapes), old(pager.dirty), old(pager.numPages),
                  pager.Heap(), shapes, pager.dirty, pager.numPages)
    {
      var i, tables := Lookup(st.name);
      if i < |tables| || |tables| >= MAX_CATALOG_TABLES {
        NothingRan(st, Refused, true, pager.file, pager.Heap(), shapes, old(pager.dirty), pager.dirty, pager.numPages);
        return Refused;
      }
      var ok;
      ghost var h: Heap, s, shapes' := pager.Heap(), shapes, shapes;
      ok, shapes' := ExecCreate(pager, st.name, st.schema, st, shapes);
      if ok {
        shapes := shapes';
      }
      reply := if ok then Done else OutOfSpace;
      CreateRan(st, ok, pager.file, h, s, old(pager.dirty), old(pager.numPages), pager.Heap(), shapes, pager.dirty, pager.numPages);
    }

    /** INSERT, UPDATE and DELETE on table i. */
    method Change(def: TableDef, st: Statement, ghost i: nat) returns (reply: Reply)
      requires Valid() && (st.InsertInto? || st.UpdateSet? || st.DeleteRowsOf?) && i == FindTable(State(), st.table)
      requires i < |shapes| && def == pager.Heap()[0].tables[i] && ChangeMeant(State()[i], st)
      modifies this`shapes, pager`cache, pager`dirty, pager`numPages
      ensures reply != OutOfSpace ==> Valid()
      ensures Ran(st, reply, old(Roomy(st, pager.Heap(), shapes, i)), pager.file,
                  old(pager.Heap()), old(shapes), old(pager.dirty), old(pager.numPages),
                  pager.Heap(), shapes, pager.dirty, pager.numPages)
    {
      ghost var h: Heap, s := pager.Heap(), shapes;
      assert State()[i] == StateAt(h, s, i);
      ghost var shapes';
      reply, shapes' := ExecChange(pager, def, st, shapes, i);
      if reply != OutOfSpace {
        shapes := shapes';
      }
      ChangeRan(st, reply, pager.file, h, s, old(pager.dirty), old(pager.numPages), i, pager.Heap(), shapes, pager.dirty, pager.numPages);
    }

    /** SELECT on table i. */
    method Ask(def: TableDef, st: Statement, ghost i: nat) returns (reply: Reply)
      requires Valid() && st.Query? && Meant(st)
      requires i < |shapes| && def == pager.Heap()[0].tables[i] && i == FindTable(State(), st.table)
      modifies pager`cache
      ensures Valid() && pager.Heap() == old(pager.Heap()) && reply != OutOfSpace
      ensures KeysMatchRows(State()) ==> (AnsweredRight(State(), st, reply) <==> ShowsNoStale(st))
    {
      assert State()[i] == StateAt(pager.Heap(), shapes, i);
      reply := ExecQuery(pager, def, st.select, shapes, i);
    }

    /** `process_command`: every statement does to the stored tables what it means and is answered as it
        should, unless the page numbers run out. */
    method Execute(st: Statement) returns (reply: Reply)
      requires Valid() && StatementOK(st) && Meant(st)
      modifies this`shapes, pager`cache, pager`dirty, pager`numPages
      ensures reply != OutOfSpace ==> Valid()
      ensures Ran(st, reply, old(RoomyFor(st)), pager.file, old(pager.Heap()), old(shapes), old(pager.dirty), old(pager.numPages),
                  pager.Heap(), shapes, pager.dirty, pager.numPages)
      ensures st.Query? && KeysMatchRows(old(State())) ==> (AnsweredRight(old(State()), st, reply) <==> old(ShowsNoStale(st)))
      ensures TextsPadded(old(State())) ==>
                && (reply != OutOfSpace ==> Does(old(State()), st, State()))
                && (!st.Query? ==> (reply == Refused <==> !Accepted(old(State()), st)))
    {
      ghost var h: Heap, s := pager.Heap(), shapes;
      reply := Dispatch(st);
      RanDoes(st, reply, old(RoomyFor(st)), pager.file, h, s, old(pager.dirty), old(pager.numPages),
              pager.Heap(), shapes, pager.dirty, pager.numPages);
    }

    /** The choice of command. */
    method Dispatch(st: Statement) returns (reply: Reply)
      requires Valid() && StatementOK(st) && Meant(st)
      modifies this`shapes, pager`cache, pager`dirty, pager`numPages
      ensures reply != OutOfSpace ==> Valid()
      ensures Ran(st, reply, old(RoomyFor(st)), pager.file, old(pager.Heap()), old(shapes), old(pager.dirty), old(pager.numPages),
                  pager.Heap(), shapes, pager.dirty, pager.numPages)
      ensures st.Query? && KeysMatchRows(old(State())) ==> (AnsweredRight(old(State()), st, reply) <==> old(ShowsNoStale(st)))
    {
      if st.CreateTable? {
        reply := Create(st);
        return;
      }
      var i, tables := Lookup(st.table);
      if i < |tables| && !st.Query? {
        reply := Change(tables[i], st, i);
        return;
      }
      reply := Refused;
      if i < |tables| {
        reply := Ask(tables[i], st, i);
      }
      NothingRan(st, reply, old(RoomyFor(st)), pager.file, pager.Heap(), shapes, old(pager.dirty), pager.dirty, pager.numPages);
    }

    /** A well-typed statement has a meaning, if no text fills its buffer where texts are compared. */
    lemma TypedIsMeant(st: Statement)
      requires Valid() && StatementOK(st) && TypedIn(State(), st) && (ComparesText(st) ==> Ended())
      ensures Meant(st)
    {
      var i := if st.CreateTable? then |shapes| else FindTable(State(), st.table);
      if i < |shapes| {
        var t, s := TreeAt(pager.Heap(), shapes, i), pager.Heap()[0].tables[i].schema;
        TableFacts(pager.Heap(), shapes, i);
        assert State()[i] == StateAt(pager.Heap(), shapes, i);
        assert Ended() ==> SlotsEndedIn(pager.Heap(), shapes, i);
        ComparedTextsEnd(t, s, WhereOf(st));
      }
    }

    /** Before its turn: a statement of a session has a meaning and splits no internal page while the
        file is small. */
    lemma TurnComes(st: Statement)
      requires Valid() && StatementOK(st) && TypedIn(State(), st) && (ComparesText(st) ==> Ended())
      ensures Meant(st) && (pager.numPages < FEW_PAGES ==> RoomyFor(st))
    {
      TypedIsMeant(st);
      if st.InsertInto? && FindTable(State(), st.table) < |shapes| {
        var i := FindTable(State(), st.table);
        TableFacts(pager.Heap(), shapes, i);
        var s := pager.Heap()[0].tables[i].schema;
        if ValuesTyped(s, st.values) && pager.numPages < FEW_PAGES {
          FewPagesSplitNoHolder(TreeAt(pager.Heap(), shapes, i), NewKey(s, st.values), pager.numPages);
        }
      }
    }

    /** The database after the first k statements of a session that began at `db`. */
    ghost predicate Reached(db: seq<TableState>, sts: seq<Statement>, k: nat, began: Began)
      reads this, pager
    {
      Valid() && SessionOK(db, sts, began.ended)
      && ReachedBy(db, sts, k, began, pager.file, pager.Heap(), shapes, pager.dirty, pager.numPages)
    }

    lemma Begin(sts: seq<Statement>) returns (began: Began)
      requires Valid() && SessionOK(State(), sts, Ended())
      ensures began == Began(Gapless(), Ended(), ParentsInFile(), KeysMatchRows(State()) && AllKeepKeys(State(), sts))
      ensures Reached(State(), sts, 0, began) && RepliesRight(State(), sts, [], began.gapless, began.keys)
    {
      began := Began(Gapless(), Ended(), ParentsInFile(), KeysMatchRows(State()) && AllKeepKeys(State(), sts));
      assert sts[..0] == [];
    }

    lemma AtEnd(db: seq<TableState>, sts: seq<Statement>, began: Began)
      requires Reached(db, sts, |sts|, began)
      ensures State() == ApplyAll(db, sts) && (began.gapless && NoDeletes(sts) ==> Gapless())
    {
      assert sts[..|sts|] == sts;
    }

    /** A session: statements run in order until one of them runs out of page numbers, which cannot happen
        while three pages a statement are left. */
    method Run(sts: seq<Statement>) returns (done: nat, replies: seq<Reply>)
      requires Valid() && SessionOK(State(), sts, Ended())
      modifies this`shapes, pager`cache, pager`dirty, pager`numPages
      ensures done == |replies| <= |sts|
      ensures done == |sts| ==> Valid() && State() == ApplyAll(old(State()), sts)
      ensures done < |sts| ==> old(pager.numPages) + 3 * (done + 1) > TABLES_MAX_PAGES
      ensures done < |sts| ==> BrokeOff(ApplyAll(old(State()), sts[..done]), sts[done], pager.Heap(), shapes)
      ensures RepliesRight(old(State()), sts, replies, old(Gapless()), KeysMatchRows(old(State())) && AllKeepKeys(old(State()), sts))
      ensures done == |sts| && old(Gapless()) && NoDeletes(sts) ==> Gapless()
      ensures done == |sts| && old(Ended()) && AllShort(sts) ==> Ended()
      ensures done == |sts| && old(ParentsInFile()) && pager.numPages < FEW_PAGES ==> ParentsInFile()
    {
      ghost var began := Begin(sts);
      replies := Turns(sts, State(), began);
      done := |replies|;
      if done == |sts| {
        AtEnd(old(State()), sts, began);
      }
    }

    /** The session loop. */
    method Turns(sts: seq<Statement>, ghost db: seq<TableState>, ghost began: Began) returns (replies: seq<Reply>)
      requires Reached(db, sts, 0, began)
      modifies this`shapes, pager`cache, pager`dirty, pager`numPages
      ensures RepliesRight(db, sts, replies, began.gapless, began.keys)
      ensures |replies| == |sts| ==> Reached(db, sts, |sts|, began)
      ensures |replies| < |sts| ==>
                && old(pager.numPages) + 3 * (|replies| + 1) > TABLES_MAX_PAGES
                && BrokeOff(ApplyAll(db, sts[..|replies|]), sts[|replies|], pager.Heap(), shapes)
    {
      replies := [];
      var done, full := 0, false;
      while done < |sts| && !full
        invariant done == |replies| <= |sts| && RepliesRight(db, sts, replies, began.gapless, began.keys)
        invariant full ==>
                    && done < |sts| && old(pager.numPages) + 3 * (done + 1) > TABLES_MAX_PAGES
                    && BrokeOff(ApplyAll(db, sts[..done]), sts[done], pager.Heap(), shapes)
        invariant !full ==>
                    && Reached(db, sts, done, began)
                    && old(pager.numPages) <= pager.numPages <= old(pager.numPages) + 3 * done
        decreases |sts| - done, !full
      {
        var reply := Turn(db, sts, done, began);
        full := reply == OutOfSpace;
        if !full {
          RepliesSnoc(db, sts, replies, reply, began.gapless, began.keys);
          replies := replies + [reply];
          done := done + 1;
        }
      }
    }

    /** One turn of the session loop. */
    method Turn(ghost db: seq<TableState>, sts: seq<Statement>, k: nat, ghost began: Began) returns (reply: Reply)
      requires k < |sts| && Reached(db, sts, k, began)
      modifies this`shapes, pager`cache, pager`dirty, pager`numPages
      ensures reply == OutOfSpace ==>
                old(pager.numPages) + 3 > TABLES_MAX_PAGES && BrokeOff(ApplyAll(db, sts[..k]), sts[k], pager.Heap(), shapes)
      ensures reply != OutOfSpace ==>
                && Reached(db, sts, k + 1, began) && ReplyRight(db, sts, k, reply, began.gapless, began.keys)
                && old(pager.numPages) <= pager.numPages <= old(pager.numPages) + 3
    {
      assert OKInTurn(db, sts, k);
      TurnComes(sts[k]);
      if sts[k].Query? && ((began.gapless && NoDeletes(sts[..k])) || LooksUp(State(), sts[k])) {
        LookupOrGapless(sts[k]);
      }
      ghost var h: Heap, s, dirty, n, roomy := pager.Heap(), shapes, pager.dirty, pager.numPages, RoomyFor(sts[k]);
      reply := Dispatch(sts[k]);
      if reply != OutOfSpace {
        ReachedNext(db, sts, k, began, reply, roomy, pager.file, h, s, dirty, n, pager.Heap(), shapes, pager.dirty, pager.numPages);
      }
    }
  }
}
