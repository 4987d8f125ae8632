/** The query planner of `src/ast.c`: which plan a SELECT gets, and what the plan returns. */
module Planner {
  import opened Rows
  import opened Meanings
  import opened Pages
  import opened Trees
  import opened Chains
  import opened Bulk
  import opened Scans
  import opened LeafInserts

  /** A parsed SELECT; an empty column list is `*`. */
  datatype Select = Select(columns: seq<string>, where: Option<Equals>)

  datatype Plan =
    | TableScan(root: nat)
    | PkLookup(root: nat, key: Key)
    | Filter(child: Plan, condition: Equals)
    | Projection(child: Plan, columns: seq<string>)

  /** `as.literal_int` of a literal node; meaningful for integer literals only. */
  function LiteralInt(lit: Literal): Key { if lit.IntLit? then lit.integer else 0 }

  /** `build_plan` for SELECT. */
  function BuildPlan(s: Schema, root: nat, sel: Select): Plan
    requires SchemaOK(s)
  {
    if |sel.columns| > 0 then
      if sel.where.Some? then
        if IsPrimaryKey(s, sel.where.value.column) then
          Projection(PkLookup(root, LiteralInt(sel.where.value.value)), sel.columns)
        else Projection(Filter(TableScan(root), sel.where.value), sel.columns)
      else Projection(TableScan(root), sel.columns)
    else if sel.where.Some? then
      if IsPrimaryKey(s, sel.where.value.column) then PkLookup(root, LiteralInt(sel.where.value.value))
      else Filter(TableScan(root), sel.where.value)
    else TableScan(root)
  }

  /** One row of a projection: each named column's first occurrence. */
  function ProjectRow(s: Schema, columns: seq<string>, row: Row): Row {
    seq(|columns|, i requires 0 <= i < |columns| =>
          var j := FindColumn(s.columns, columns[i]);
          if j < |row| then row[j] else IntVal(0))
  }

  /** That is what its column list asks for. */
  lemma ProjectRowMeans(s: Schema, columns: seq<string>, row: Row, out: Row)
    requires RowOK(s, row) && columns != [] && forall i :: 0 <= i < |columns| ==> Named(s, columns[i])
    ensures Projects(s, columns, row, out) <==> out == ProjectRow(s, columns, row)
  {
    var r := ProjectRow(s, columns, row);
    assert |r| == |columns|;
    forall i, j: nat | 0 <= i < |columns| && FirstNamed(s, columns[i], j)
      ensures j < |row| && r[i] == row[j]
    {
      FoundIsFirst(s, columns[i], j);
    }
    if Projects(s, columns, row, out) {
      forall i | 0 <= i < |columns|
        ensures out[i] == r[i]
      {
        FoundIsFirst(s, columns[i], FindColumn(s.columns, columns[i]));
      }
    }
  }

  function ProjectRows(s: Schema, columns: seq<string>, rows: seq<Row>): (r: seq<Row>)
    ensures |r| == |rows|
  {
    if rows == [] then [] else [ProjectRow(s, columns, rows[0])] + ProjectRows(s, columns, rows[1..])
  }

  /** The row with this key, if there is one. */
  ghost function LookupRows(t: Tree, key: Key): seq<Row>
    requires WellFormed(t)
  {
    if key in Contents(t) then [Contents(t)[key]] else []
  }

  /** What running a plan to its end returns. */
  ghost function PlanRows(t: Tree, s: Schema, plan: Plan): seq<Row>
    requires WellFormed(t)
  {
    match plan
    case TableScan(_) => ScanOutput(t, s)
    case PkLookup(_, key) => LookupRows(t, key)
    case Filter(child, condition) => FilterRows(s, Some(condition), PlanRows(t, s, child))
    case Projection(child, columns) => ProjectRows(s, columns, PlanRows(t, s, child))
  }

  /** What a SELECT means: the stored rows in key order, filtered, then projected. */
  ghost function Meaning(t: Tree, s: Schema, sel: Select): seq<Row>
    requires WellFormed(t)
  {
    var rows := FilterRows(s, sel.where, RowsOf(InOrder(t)));
    if |sel.columns| > 0 then ProjectRows(s, sel.columns, rows) else rows
  }

  /** No column before the primary key carries the primary key's name. */
  ghost predicate PkUnshadowed(s: Schema)
    requires SchemaOK(s)
  {
    forall j :: 0 <= j < s.pk ==> !ColumnNameIs(s.columns[s.pk].name, s.columns[j].name)
  }

  lemma PkNameFound(s: Schema, name: string)
    requires SchemaOK(s) && PkUnshadowed(s) && IsPrimaryKey(s, name)
    ensures FindColumn(s.columns, name) == s.pk
  {
    var i := FindColumn(s.columns, name);
    if i < s.pk {
      SameName(name, s.columns[s.pk].name, s.columns[i].name);
    }
  }

  lemma SameName(name: string, a: string, b: string)
    requires ColumnNameIs(name, a) && ColumnNameIs(name, b)
    ensures ColumnNameIs(a, b)
  {
    assert forall i :: 0 <= i < |name| ==> Lower(name[i]) == Lower(a[i]) && Lower(name[i]) == Lower(b[i]);
  }

  lemma {:induction false} FilterNone(s: Schema, eq: Equals, cells: seq<Cell>)
    requires forall c :: c in cells ==> !Matches(s, Some(eq), c.row)
    ensures FilterRows(s, Some(eq), RowsOf(cells)) == []
  {
    if cells != [] {
      assert cells[0] in cells;
      assert forall c :: c in cells[1..] ==> c in cells;
      FilterNone(s, eq, cells[1..]);
    }
  }

  /** When the condition picks out the i-th of a sorted run of cells, filtering returns its row. */
  lemma FilterOnly(s: Schema, eq: Equals, cells: seq<Cell>, i: nat)
    requires SortedCells(cells) && i < |cells|
    requires forall c :: c in cells ==> (Matches(s, Some(eq), c.row) <==> c.key == cells[i].key)
    ensures FilterRows(s, Some(eq), RowsOf(cells)) == [cells[i].row]
  {
    var before, after := cells[..i], cells[i + 1..];
    assert cells == before + ([cells[i]] + after);
    RowsOfConcat(before, [cells[i]] + after);
    RowsOfConcat([cells[i]], after);
    assert RowsOf([cells[i]][1..]) == [];
    FilterConcat(s, Some(eq), RowsOf(before), [cells[i].row] + RowsOf(after));
    FilterConcat(s, Some(eq), [cells[i].row], RowsOf(after));
    OthersDiffer(s, eq, cells, i);
    FilterNone(s, eq, before);
    FilterNone(s, eq, after);
    FilterOne(s, Some(eq), cells[i].row);
  }

  lemma OthersDiffer(s: Schema, eq: Equals, cells: seq<Cell>, i: nat)
    requires SortedCells(cells) && i < |cells|
    requires forall c :: c in cells ==> (Matches(s, Some(eq), c.row) <==> c.key == cells[i].key)
    ensures forall c :: c in cells[..i] || c in cells[i + 1..] ==> !Matches(s, Some(eq), c.row)
    ensures Matches(s, Some(eq), cells[i].row)
  {
    assert cells[i] in cells;
    forall c | c in cells[..i] || c in cells[i + 1..]
      ensures c in cells && c.key != cells[i].key
    {
      if c in cells[..i] {
        var x :| 0 <= x < i && cells[..i][x] == c;
        assert cells[x] == c;
      } else {
        var x :| 0 <= x < |cells[i + 1..]| && cells[i + 1..][x] == c;
        assert cells[i + 1 + x] == c;
      }
    }
  }

  /** Looking a key up in the tree returns what filtering all rows on the primary key returns. */
  lemma LookupIsFilter(t: Tree, s: Schema, eq: Equals)
    requires WellFormed(t) && SchemaOK(s) && PkUnshadowed(s) && KeysAgree(t, s)
    requires IsPrimaryKey(s, eq.column) && eq.value.IntLit?
    ensures LookupRows(t, eq.value.integer) == FilterRows(s, Some(eq), RowsOf(InOrder(t)))
  {
    var key := eq.value.integer;
    PkNameFound(s, eq.column);
    InOrderEnumerates(t);
    forall c | c in InOrder(t)
      ensures c in CellSet(t) && (Matches(s, Some(eq), c.row) <==> c.key == key)
    {
    }
    if key in Contents(t) {
      var c := Cell(key, Contents(t)[key]);
      assert c in InOrder(t);
      var i :| 0 <= i < |InOrder(t)| && InOrder(t)[i] == c;
      FilterOnly(s, eq, InOrder(t), i);
    } else {
      FilterNone(s, eq, InOrder(t));
    }
  }

  lemma {:induction false} ProjectInjectiveOnLength(s: Schema, columns: seq<string>, a: seq<Row>, b: seq<Row>)
    requires a != b ==> |a| > |b|
    ensures ProjectRows(s, columns, a) == ProjectRows(s, columns, b) <==> a == b
  {
  }

  /** The part of a plan below the projection. */
  function AccessPlan(s: Schema, root: nat, where: Option<Equals>): Plan
    requires SchemaOK(s)
  {
    match where
    case None => TableScan(root)
    case Some(eq) => if IsPrimaryKey(s, eq.column) then PkLookup(root, LiteralInt(eq.value)) else Filter(TableScan(root), eq)
  }

  lemma AccessRows(t: Tree, s: Schema, root: nat, where: Option<Equals>)
    requires WellFormed(t) && SchemaOK(s)
    ensures PlanRows(t, s, AccessPlan(s, root, where))
         == if where.Some? && IsPrimaryKey(s, where.value.column) then LookupRows(t, LiteralInt(where.value.value))
            else FilterRows(s, where, ScanOutput(t, s))
  {
    FilterAll(s, ScanOutput(t, s));
    if where.Some? {
      assert PlanRows(t, s, TableScan(root)) == ScanOutput(t, s);
    }
  }

  /** Main result on the planner: running the chosen plan returns exactly what the SELECT means when
      the plan is a primary-key lookup, and otherwise exactly when no empty leaf after the first
      shows a stale row that passes the condition. */
  lemma PlannerExact(t: Tree, s: Schema, root: nat, sel: Select)
    requires WellFormed(t) && SchemaOK(s) && PkUnshadowed(s) && KeysAgree(t, s)
    requires sel.where.Some? && IsPrimaryKey(s, sel.where.value.column) ==> sel.where.value.value.IntLit?
    ensures PlanRows(t, s, BuildPlan(s, root, sel)) == Meaning(t, s, sel) <==>
            (sel.where.Some? && IsPrimaryKey(s, sel.where.value.column)) || NoStaleShown(t, s, sel.where)
  {
    FilteredScanExact(t, s, sel.where);
    AccessRows(t, s, root, sel.where);
    var plan := AccessPlan(s, root, sel.where);
    assert BuildPlan(s, root, sel) == if |sel.columns| > 0 then Projection(plan, sel.columns) else plan;
    var got, want := FilterRows(s, sel.where, ScanOutput(t, s)), FilterRows(s, sel.where, RowsOf(InOrder(t)));
    ProjectInjectiveOnLength(s, sel.columns, got, want);
    if sel.where.Some? && IsPrimaryKey(s, sel.where.value.column) {
      LookupIsFilter(t, s, sel.where.value);
    }
  }

  /** As long as only inserts and updates have run, every SELECT means what it says. */
  lemma PlannerPreservesMeaning(t: Tree, s: Schema, root: nat, sel: Select)
    requires WellFormed(t) && SchemaOK(s) && PkUnshadowed(s) && KeysAgree(t, s) && LaterLeavesNonEmpty(t)
    requires sel.where.Some? && IsPrimaryKey(s, sel.where.value.column) ==> sel.where.value.value.IntLit?
    ensures PlanRows(t, s, BuildPlan(s, root, sel)) == Meaning(t, s, sel)
  {
    PlannerExact(t, s, root, sel);
  }

  // When the primary key is shadowed by an earlier column of the same name

  /** A table with one row: all zero but for its primary key, 1. */
  ghost function OneRowTree(s: Schema): Tree
    requires SchemaOK(s)
  {
    var row := ZeroRow(s)[s.pk := IntVal(1)];
    Tree(map[1 := Leaf(true, 0, 0, 1, [Cell(1, row)])], map[1 := Span(KEY_MIN, KEY_END, 0, 0)], 1, LeafMaxCells(s))
  }

  lemma OneRowTreeOK(s: Schema)
    requires SchemaOK(s)
    ensures WellFormed(OneRowTree(s)) && KeysAgree(OneRowTree(s), s) && Typed(OneRowTree(s), s)
    ensures CellSet(OneRowTree(s)) == {Cell(1, ZeroRow(s)[s.pk := IntVal(1)])}
  {
    var t := OneRowTree(s);
    var c := Cell(1, ZeroRow(s)[s.pk := IntVal(1)]);
    LeafCapacity(s);
    assert Cells(t.pages[1]) == [c];
    assert PageOK(t, 0, 1);
    forall d
      ensures d in CellSet(t) <==> d == c
    {
      assert c in Cells(t.pages[1]);
    }
    assert AllSlots(t) == {c};
  }

  /** The lookup plan agrees with filtering for every table and every integer literal exactly when no
      earlier column shares the primary key's name. */
  lemma LookupPlanIffUnshadowed(s: Schema)
    requires SchemaOK(s)
    ensures PkUnshadowed(s) <==>
            forall t: Tree, key: Key :: WellFormed(t) && KeysAgree(t, s) ==>
              LookupRows(t, key) == FilterRows(s, Some(Equals(s.columns[s.pk].name, IntLit(key))), RowsOf(InOrder(t)))
  {
    var name := s.columns[s.pk].name;
    if PkUnshadowed(s) {
      forall t: Tree, key: Key | WellFormed(t) && KeysAgree(t, s)
        ensures LookupRows(t, key) == FilterRows(s, Some(Equals(name, IntLit(key))), RowsOf(InOrder(t)))
      {
        LookupIsFilter(t, s, Equals(name, IntLit(key)));
      }
    } else {
      ShadowedLookupDiffers(s);
      OneRowTreeOK(s);
      var t, key := OneRowTree(s), 1;
      assert LookupRows(t, key) != FilterRows(s, Some(Equals(name, IntLit(key))), RowsOf(InOrder(t)));
    }
  }

  lemma ShadowedLookupDiffers(s: Schema)
    requires SchemaOK(s) && !PkUnshadowed(s)
    ensures WellFormed(OneRowTree(s))
    ensures LookupRows(OneRowTree(s), 1)
         != FilterRows(s, Some(Equals(s.columns[s.pk].name, IntLit(1))), RowsOf(InOrder(OneRowTree(s))))
  {
    var t := OneRowTree(s);
    var eq := Equals(s.columns[s.pk].name, IntLit(1));
    var row := ZeroRow(s)[s.pk := IntVal(1)];
    OneRowTreeOK(s);
    InOrderEnumerates(t);
    assert Cell(1, row) in CellSet(t);
    var i := FindColumn(s.columns, eq.column);
    assert i < s.pk;
    assert !Matches(s, Some(eq), row);
    SortedEnumerationUnique(InOrder(t), [Cell(1, row)]);
    assert RowsOf([Cell(1, row)][1..]) == [];
    assert RowsOf(InOrder(t)) == [row];
    FilterOne(s, Some(eq), row);
  }
}
