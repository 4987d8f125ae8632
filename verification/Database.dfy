/** Several tables in one page file: which pages belong to whom, and what a statement leaves alone. */
module Databases {
  import opened Rows
  import opened Pages
  import opened Trees
  import opened LeafInserts
  import opened Bulk

  const MAX_CATALOG_TABLES: nat := 13

  // Trees that agree on their own pages

  ghost predicate SameTree(t: Tree, t': Tree) {
    && t'.shape == t.shape && t'.root == t.root && t'.cap == t.cap
    && forall p :: p in t.shape && p in t.pages ==> p in t'.pages && t'.pages[p] == t.pages[p]
  }

  /** A tree is what its own pages make it, whatever happens elsewhere. */
  lemma SameTreeFacts(t: Tree, t': Tree)
    requires WellFormed(t) && SameTree(t, t')
    ensures WellFormed(t') && CellSet(t') == CellSet(t) && AllSlots(t') == AllSlots(t)
    ensures Contents(t') == Contents(t)
    ensures Parented(t) ==> Parented(t')
    ensures LaterLeavesNonEmpty(t) ==> LaterLeavesNonEmpty(t')
  {
    forall p | p in t'.shape
      ensures PageOK(t', 0, p)
    {
      PageFacts(t, 0, p);
    }
    forall p | p in t.shape ensures p in t.pages && p in t'.pages && t'.pages[p] == t.pages[p] { PageFacts(t, 0, p); }
    SameCellsSameContents(t, t');
    if Parented(t) {
      forall p | p in t'.shape && p in t'.pages
        ensures ParentOK(t', p)
      {
        assert ParentOK(t, p);
      }
    }
  }

  lemma SameCellsSameContents(t: Tree, t': Tree)
    requires WellFormed(t) && WellFormed(t') && CellSet(t') == CellSet(t)
    ensures Contents(t') == Contents(t)
  {
    forall k | k in Contents(t)
      ensures k in Contents(t') && Contents(t')[k] == Contents(t)[k]
    {
      assert Cell(k, Contents(t)[k]) in CellSet(t');
    }
    forall k | k in Contents(t')
      ensures k in Contents(t)
    {
      assert Cell(k, Contents(t')[k]) in CellSet(t);
    }
  }

  // The database as a heap with one tree per catalog entry

  ghost predicate HasCatalog(h: Heap, shapes: seq<Shape>) {
    0 in h && h[0].Catalog? && |h[0].tables| == |shapes| <= MAX_CATALOG_TABLES
  }

  ghost function TreeAt(h: Heap, shapes: seq<Shape>, i: nat): Tree
    requires HasCatalog(h, shapes) && i < |shapes|
  {
    Tree(h, shapes[i], h[0].tables[i].root, LeafMaxCells(h[0].tables[i].schema))
  }

  ghost predicate TableOK(t: Tree, s: Schema) {
    SchemaOK(s) && WellFormed(t) && Parented(t) && Typed(t, s)
  }

  /** Every table is in order, no page belongs to two tables, and every page but the catalog
      belongs to one. */
  ghost predicate DatabaseOK(h: Heap, shapes: seq<Shape>) {
    && HasCatalog(h, shapes)
    && (forall i {:trigger shapes[i]} :: 0 <= i < |shapes| ==> TableOK(TreeAt(h, shapes, i), h[0].tables[i].schema))
    && (forall i, j :: 0 <= i < j < |shapes| ==> shapes[i].Keys !! shapes[j].Keys)
    && (forall p :: p in h && p != 0 ==> exists i :: 0 <= i < |shapes| && p in shapes[i])
  }

  lemma TableFacts(h: Heap, shapes: seq<Shape>, i: nat)
    requires DatabaseOK(h, shapes) && i < |shapes|
    ensures TableOK(TreeAt(h, shapes, i), h[0].tables[i].schema)
    ensures 0 !in shapes[i] && forall p :: p in shapes[i] ==> p in h
  {
    var t := TreeAt(h, shapes, i);
    assert shapes[i] == t.shape;
    forall p | p in shapes[i] ensures p in h && p != 0 { PageFacts(t, 0, p); }
  }

  /** A statement on table i that only touches the table's own pages and fresh ones. */
  ghost predicate TableStep(h: Heap, shapes: seq<Shape>, h': Heap, i: nat, t': Tree)
    requires HasCatalog(h, shapes)
  {
    && i < |shapes| && t'.pages == h' && Grows(TreeAt(h, shapes, i), t') && TableOK(t', h[0].tables[i].schema)
  }

  /** The other tables keep their pages, their trees and their rows. */
  lemma OtherTablesStay(h: Heap, shapes: seq<Shape>, h': Heap, i: nat, t': Tree, j: nat)
    requires DatabaseOK(h, shapes) && TableStep(h, shapes, h', i, t') && j < |shapes| && j != i
    ensures HasCatalog(h', shapes[i := t'.shape]) && h'[0] == h[0]
    ensures var a, b := TreeAt(h, shapes, j), TreeAt(h', shapes[i := t'.shape], j);
            && SameTree(a, b) && WellFormed(a) && TableOK(b, h[0].tables[j].schema)
            && Contents(b) == Contents(a) && CellSet(b) == CellSet(a)
            && (LaterLeavesNonEmpty(a) ==> LaterLeavesNonEmpty(b))
    ensures t'.shape.Keys !! shapes[j].Keys
  {
    TableFacts(h, shapes, i);
    TableFacts(h, shapes, j);
    var a, b := TreeAt(h, shapes, j), TreeAt(h', shapes[i := t'.shape], j);
    DisjointTables(h, shapes, i, j);
    forall p | p in a.shape
      ensures p in b.pages && b.pages[p] == a.pages[p]
    {
      assert p !in shapes[i];
    }
    SameTreeFacts(a, b);
  }

  lemma DisjointTables(h: Heap, shapes: seq<Shape>, i: nat, j: nat)
    requires DatabaseOK(h, shapes) && i < |shapes| && j < |shapes| && i != j
    ensures shapes[i].Keys !! shapes[j].Keys
  {
    if i < j {
      assert shapes[i].Keys !! shapes[j].Keys;
    } else {
      assert shapes[j].Keys !! shapes[i].Keys;
    }
  }

  /** Page conservation and separation: a step of one table keeps the whole database in order. */
  lemma TableStepKeepsDatabase(h: Heap, shapes: seq<Shape>, h': Heap, i: nat, t': Tree)
    requires DatabaseOK(h, shapes) && TableStep(h, shapes, h', i, t')
    ensures DatabaseOK(h', shapes[i := t'.shape])
    ensures TreeAt(h', shapes[i := t'.shape], i) == t'
  {
    var shapes' := shapes[i := t'.shape];
    TableFacts(h, shapes, i);
    forall j | 0 <= j < |shapes'|
      ensures TableOK(TreeAt(h', shapes', j), h'[0].tables[j].schema)
    {
      if j != i { OtherTablesStay(h, shapes, h', i, t', j); }
    }
    forall a, b | 0 <= a < b < |shapes'|
      ensures shapes'[a].Keys !! shapes'[b].Keys
    {
      if a == i { OtherTablesStay(h, shapes, h', i, t', b); }
      else if b == i { OtherTablesStay(h, shapes, h', i, t', a); }
      else { DisjointTables(h, shapes, a, b); }
    }
    forall p | p in h' && p != 0
      ensures exists j :: 0 <= j < |shapes'| && p in shapes'[j]
    {
      var j := PageOwner(h, shapes, h', i, t', p);
    }
  }

  lemma PageOwner(h: Heap, shapes: seq<Shape>, h': Heap, i: nat, t': Tree, p: nat) returns (j: nat)
    requires DatabaseOK(h, shapes) && TableStep(h, shapes, h', i, t') && p in h' && p != 0
    ensures j < |shapes| && p in shapes[i := t'.shape][j]
  {
    j := i;
    if p in h {
      var k :| 0 <= k < |shapes| && p in shapes[k];
      j := k;
    }
  }

  // CREATE TABLE

  /** The tree of a table without rows: its root is an empty leaf. */
  ghost function EmptyTree(h: Heap, p: nat, s: Schema): Tree {
    Tree(h, map[p := Span(KEY_MIN, KEY_END, 0, 0)], p, LeafMaxCells(s))
  }

  lemma EmptyTreeOK(h: Heap, p: nat, s: Schema)
    requires SchemaOK(s) && p in h && h[p] == Leaf(true, 0, 0, 0, []) && 0 < p < TABLES_MAX_PAGES
    ensures TableOK(EmptyTree(h, p, s), s) && CellSet(EmptyTree(h, p, s)) == {} && Contents(EmptyTree(h, p, s)) == map[]
    ensures LaterLeavesNonEmpty(EmptyTree(h, p, s))
  {
    var t := EmptyTree(h, p, s);
    LeafCapacity(s);
    assert Cells(h[p]) == [];
    assert PageOK(t, 0, p);
    assert AllSlots(t) == {};
    assert CellSet(t) == {};
    assert WellFormed(t);
  }

  ghost function EmptyShape(p: nat): Shape { map[p := Span(KEY_MIN, KEY_END, 0, 0)] }

  /** The heap after `create_table`: an empty root leaf on page p and one more catalog entry. */
  ghost predicate Created(h: Heap, shapes: seq<Shape>, h': Heap, p: nat, def: TableDef) {
    && DatabaseOK(h, shapes) && |shapes| < MAX_CATALOG_TABLES && SchemaOK(def.schema) && def.root == p
    && 0 < p < TABLES_MAX_PAGES && p !in h
    && h' == h[p := Leaf(true, 0, 0, 0, [])][0 := Catalog(h[0].tables + [def])]
  }

  lemma CreateLeavesTable(h: Heap, shapes: seq<Shape>, h': Heap, p: nat, def: TableDef, j: nat)
    requires Created(h, shapes, h', p, def) && j < |shapes|
    ensures HasCatalog(h', shapes + [EmptyShape(p)]) && p !in shapes[j]
    ensures var a, b := TreeAt(h, shapes, j), TreeAt(h', shapes + [EmptyShape(p)], j);
            && SameTree(a, b) && WellFormed(a) && TableOK(b, h'[0].tables[j].schema)
            && Contents(b) == Contents(a) && CellSet(b) == CellSet(a)
            && (LaterLeavesNonEmpty(a) ==> LaterLeavesNonEmpty(b))
  {
    TableFacts(h, shapes, j);
    SameTreeFacts(TreeAt(h, shapes, j), TreeAt(h', shapes + [EmptyShape(p)], j));
  }

  lemma CreateSeparates(h: Heap, shapes: seq<Shape>, h': Heap, p: nat, def: TableDef)
    requires Created(h, shapes, h', p, def)
    ensures var shapes' := shapes + [EmptyShape(p)];
            && (forall a, b :: 0 <= a < b < |shapes'| ==> shapes'[a].Keys !! shapes'[b].Keys)
            && (forall q | q in h' && q != 0 :: exists j :: 0 <= j < |shapes'| && q in shapes'[j])
  {
    var shapes' := shapes + [EmptyShape(p)];
    forall a, b | 0 <= a < b < |shapes'|
      ensures shapes'[a].Keys !! shapes'[b].Keys
    {
      CreateLeavesTable(h, shapes, h', p, def, a);
      if b < |shapes| { DisjointTables(h, shapes, a, b); }
    }
    forall q | q in h' && q != 0
      ensures exists j :: 0 <= j < |shapes'| && q in shapes'[j]
    {
      if q == p {
        assert q in shapes'[|shapes|];
      } else {
        var j :| 0 <= j < |shapes| && q in shapes[j];
        assert q in shapes'[j];
      }
    }
  }

  lemma CreateKeepsDatabase(h: Heap, shapes: seq<Shape>, h': Heap, p: nat, def: TableDef)
    requires Created(h, shapes, h', p, def)
    ensures DatabaseOK(h', shapes + [EmptyShape(p)])
    ensures TreeAt(h', shapes + [EmptyShape(p)], |shapes|) == EmptyTree(h', p, def.schema)
  {
    var shapes' := shapes + [EmptyShape(p)];
    EmptyTreeOK(h', p, def.schema);
    forall j | 0 <= j < |shapes'|
      ensures TableOK(TreeAt(h', shapes', j), h'[0].tables[j].schema)
    {
      if j < |shapes| { CreateLeavesTable(h, shapes, h', p, def, j); }
    }
    CreateSeparates(h, shapes, h', p, def);
  }

  // Texts that end inside their buffer

  ghost predicate SlotsEnded(t: Tree) { forall c :: c in AllSlots(t) ==> RowEnded(c.row) }

  ghost predicate SlotsEndedIn(h: Heap, shapes: seq<Shape>, i: nat)
    requires HasCatalog(h, shapes) && i < |shapes|
  {
    SlotsEnded(TreeAt(h, shapes, i))
  }

  /** No slot of any table, live or stale, holds a text that fills its buffer. */
  ghost predicate TextsEnded(h: Heap, shapes: seq<Shape>)
    requires HasCatalog(h, shapes)
  {
    forall i {:trigger SlotsEndedIn(h, shapes, i)} :: 0 <= i < |shapes| ==> SlotsEndedIn(h, shapes, i)
  }

  lemma TextsEndedAfterStep(h: Heap, shapes: seq<Shape>, h': Heap, i: nat, t': Tree)
    requires DatabaseOK(h, shapes) && TableStep(h, shapes, h', i, t') && TextsEnded(h, shapes) && SlotsEnded(t')
    ensures HasCatalog(h', shapes[i := t'.shape]) && TextsEnded(h', shapes[i := t'.shape])
  {
    var shapes' := shapes[i := t'.shape];
    TableStepKeepsDatabase(h, shapes, h', i, t');
    forall j | 0 <= j < |shapes'|
      ensures SlotsEndedIn(h', shapes', j)
    {
      assert SlotsEndedIn(h, shapes, j);
      if j != i {
        OtherTablesStay(h, shapes, h', i, t', j);
        SameTreeFacts(TreeAt(h, shapes, j), TreeAt(h', shapes', j));
      }
    }
  }

  lemma TextsEndedAfterCreate(h: Heap, shapes: seq<Shape>, h': Heap, p: nat, def: TableDef)
    requires Created(h, shapes, h', p, def) && TextsEnded(h, shapes)
    ensures HasCatalog(h', shapes + [EmptyShape(p)]) && TextsEnded(h', shapes + [EmptyShape(p)])
  {
    var shapes' := shapes + [EmptyShape(p)];
    CreateKeepsDatabase(h, shapes, h', p, def);
    forall j | 0 <= j < |shapes'|
      ensures SlotsEndedIn(h', shapes', j)
    {
      if j < |shapes| {
        assert SlotsEndedIn(h, shapes, j);
        CreateLeavesTable(h, shapes, h', p, def, j);
        SameTreeFacts(TreeAt(h, shapes, j), TreeAt(h', shapes', j));
      }
    }
  }

  // Parent fields in the file

  function ParentField(n: Page): nat { if n.Catalog? then 0 else n.parent }

  /** The file's copies of the clean pages of a tree name the right holders. */
  ghost predicate FileParentsCurrent(file: seq<Page>, dirty: set<nat>, shape: Shape, root: nat) {
    forall p :: p in shape && p != root && p !in dirty && p < |file| ==> ParentField(file[p]) == shape[p].up
  }

  ghost predicate ParentsCurrentIn(file: seq<Page>, dirty: set<nat>, h: Heap, shapes: seq<Shape>, i: nat)
    requires HasCatalog(h, shapes) && i < |shapes|
  {
    FileParentsCurrent(file, dirty, shapes[i], h[0].tables[i].root)
  }

  /** So do those of every table: a restart would bring back every parent field. */
  ghost predicate ParentsCurrent(file: seq<Page>, dirty: set<nat>, h: Heap, shapes: seq<Shape>)
    requires HasCatalog(h, shapes)
  {
    forall i {:trigger ParentsCurrentIn(file, dirty, h, shapes, i)} :: 0 <= i < |shapes| ==> ParentsCurrentIn(file, dirty, h, shapes, i)
  }

  /** A clean page of the file that has got another holder. */
  ghost predicate CleanRehung(file: seq<Page>, dirty: set<nat>, t: Tree, t': Tree) {
    exists p :: p in t.shape && p in t'.shape && p != t.root && p !in dirty && p < |file| && t'.shape[p].up != t.shape[p].up
  }

  /** When a tree grows, the file keeps the right holders exactly if no clean page gets another one. */
  lemma ParentsAfterGrowth(file: seq<Page>, dirty: set<nat>, dirty': set<nat>, t: Tree, t': Tree)
    requires FileParentsCurrent(file, dirty, t.shape, t.root) && dirty <= dirty' && Grows(t, t')
    requires forall p: nat :: p < |file| ==> p in t.pages
    ensures FileParentsCurrent(file, dirty', t'.shape, t'.root) <==> !CleanRehung(file, dirty', t, t')
    ensures UpsStay(t, t') ==> !CleanRehung(file, dirty', t, t')
  {
    if !CleanRehung(file, dirty', t, t') {
      forall p | p in t'.shape && p != t'.root && p !in dirty' && p < |file|
        ensures ParentField(file[p]) == t'.shape[p].up
      {
        assert p in t.shape;
      }
    }
  }

  lemma ParentsElsewhere(file: seq<Page>, dirty: set<nat>, dirty': set<nat>, h: Heap, shapes: seq<Shape>, h': Heap, i: nat, t': Tree)
    requires HasCatalog(h, shapes) && 0 in h' && h'[0] == h[0] && i < |shapes| && dirty <= dirty'
    requires ParentsCurrent(file, dirty, h, shapes)
    ensures HasCatalog(h', shapes[i := t'.shape])
    ensures ParentsCurrent(file, dirty', h', shapes[i := t'.shape])
       <==> FileParentsCurrent(file, dirty', t'.shape, h[0].tables[i].root)
  {
    var shapes' := shapes[i := t'.shape];
    assert ParentsCurrentIn(file, dirty', h', shapes', i) <==> FileParentsCurrent(file, dirty', t'.shape, h[0].tables[i].root);
    forall j | 0 <= j < |shapes'| && j != i
      ensures ParentsCurrentIn(file, dirty', h', shapes', j)
    {
      assert ParentsCurrentIn(file, dirty, h, shapes, j);
    }
  }

  /** After a step of table i the file has the right holders exactly if the step has given no clean page
      of the table another holder. */
  lemma ParentsAfterStep(file: seq<Page>, dirty: set<nat>, dirty': set<nat>, h: Heap, shapes: seq<Shape>, h': Heap, i: nat, t': Tree)
    requires DatabaseOK(h, shapes) && TableStep(h, shapes, h', i, t') && dirty <= dirty'
    requires forall p: nat :: p < |file| ==> p in h
    requires ParentsCurrent(file, dirty, h, shapes)
    ensures HasCatalog(h', shapes[i := t'.shape])
    ensures ParentsCurrent(file, dirty', h', shapes[i := t'.shape]) <==> !CleanRehung(file, dirty', TreeAt(h, shapes, i), t')
    ensures UpsStay(TreeAt(h, shapes, i), t') ==> ParentsCurrent(file, dirty', h', shapes[i := t'.shape])
  {
    TableFacts(h, shapes, i);
    assert ParentsCurrentIn(file, dirty, h, shapes, i);
    ParentsAfterGrowth(file, dirty, dirty', TreeAt(h, shapes, i), t');
    ParentsElsewhere(file, dirty, dirty', h, shapes, h', i, t');
  }

  lemma ParentsAfterCreate(file: seq<Page>, dirty: set<nat>, dirty': set<nat>, h: Heap, shapes: seq<Shape>, h': Heap, p: nat, def: TableDef)
    requires Created(h, shapes, h', p, def) && dirty <= dirty' && ParentsCurrent(file, dirty, h, shapes)
    ensures HasCatalog(h', shapes + [EmptyShape(p)]) && ParentsCurrent(file, dirty', h', shapes + [EmptyShape(p)])
  {
    var shapes' := shapes + [EmptyShape(p)];
    CreateKeepsDatabase(h, shapes, h', p, def);
    forall j | 0 <= j < |shapes'|
      ensures ParentsCurrentIn(file, dirty', h', shapes', j)
    {
      if j < |shapes| {
        assert ParentsCurrentIn(file, dirty, h, shapes, j);
      }
    }
  }

  // What survives when a table's step breaks off

  /** Table j is in order and holds what `want` says. */
  ghost predicate TableSurvives(h: Heap, shapes: seq<Shape>, j: nat, name: string, schema: Schema, rows: map<Key, Row>)
    requires HasCatalog(h, shapes) && j < |shapes|
  {
    && TableOK(TreeAt(h, shapes, j), h[0].tables[j].schema) && Contents(TreeAt(h, shapes, j)) == rows
    && h[0].tables[j].name == name && h[0].tables[j].schema == schema
  }

  /** A step of table i that breaks off half way leaves every other table whole. */
  lemma OthersSurvive(h: Heap, shapes: seq<Shape>, h': Heap, i: nat, j: nat)
    requires DatabaseOK(h, shapes) && i < |shapes| && j < |shapes| && j != i
    requires forall p :: p in h && p !in shapes[i] ==> p in h' && h'[p] == h[p]
    requires WellFormed(TreeAt(h, shapes, j))
    ensures HasCatalog(h', shapes)
    ensures TableSurvives(h', shapes, j, h[0].tables[j].name, h[0].tables[j].schema, Contents(TreeAt(h, shapes, j)))
  {
    TableFacts(h, shapes, i);
    TableFacts(h, shapes, j);
    DisjointTables(h, shapes, i, j);
    var a, b := TreeAt(h, shapes, j), TreeAt(h', shapes, j);
    forall p | p in a.shape
      ensures p in b.pages && b.pages[p] == a.pages[p]
    {
      assert p !in shapes[i];
    }
    SameTreeFacts(a, b);
  }
}
