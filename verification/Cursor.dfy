/** The pull-based cursors of `src/table.c` and how `src/ast.c` builds them from a plan. */
module Cursors {
  import opened Rows
  import opened Meanings
  import opened Pages
  import opened Trees
  import opened Chains
  import opened Pagers
  import opened Inserts
  import opened Scans
  import opened Planner

  datatype CursorType = TABLE_SCAN | PK_LOOKUP | FILTER | PROJECTION

  class Cursor {
    const kind: CursorType
    // table scan
    var page: nat
    var cell: nat
    // table scan and primary-key lookup
    var done: bool
    // primary-key lookup
    const root: nat
    const key: Key
    // filter and projection
    const child: Cursor?
    const condition: Option<Equals>
    const columns: seq<string>
    ghost const Repr: set<Cursor>

    ghost predicate Valid()
      decreases Repr
    {
      && this in Repr
      && (kind.FILTER? || kind.PROJECTION? ==>
            child != null && child in Repr && child.Repr <= Repr && this !in child.Repr && child.Valid())
    }

    /** The pages this cursor stands on belong to tree t. */
    ghost predicate On(t: Tree)
      requires Valid()
      reads this, Repr
      decreases Repr
    {
      match kind
      case TABLE_SCAN => page in t.shape
      case PK_LOOKUP => root == t.root
      case FILTER => child.On(t)
      case PROJECTION => child.On(t)
    }

    /** The rows this cursor has yet to return. */
    ghost function Pending(t: Tree, s: Schema): seq<Row>
      requires Valid() && WellFormed(t) && On(t)
      reads this, Repr
      decreases Repr
    {
      match kind
      case TABLE_SCAN => if done then [] else ScanPending(t, page, cell, s)
      case PK_LOOKUP => if done then [] else LookupRows(t, key)
      case FILTER => FilterRows(s, condition, child.Pending(t, s))
      case PROJECTION => ProjectRows(s, columns, child.Pending(t, s))
    }

    constructor Scan(root_page: nat)
      ensures Valid() && fresh(Repr) && kind == TABLE_SCAN && page == root_page && cell == 0 && !done
    {
      kind, page, cell, done := TABLE_SCAN, root_page, 0, false;
      root, key, child, condition, columns := 0, 0, null, None, [];
      Repr := {this};
    }

    constructor Lookup(root_page: nat, k: Key)
      ensures Valid() && fresh(Repr) && kind == PK_LOOKUP && root == root_page && key == k && !done
    {
      kind, root, key, done := PK_LOOKUP, root_page, k, false;
      page, cell, child, condition, columns := 0, 0, null, None, [];
      Repr := {this};
    }

    constructor Filter(c: Cursor, eq: Equals)
      requires c.Valid()
      ensures Valid() && fresh(Repr - c.Repr) && kind == FILTER && child == c && condition == Some(eq)
    {
      kind, child, condition := FILTER, c, Some(eq);
      page, cell, done, root, key, columns := 0, 0, false, 0, 0, [];
      Repr := {this} + c.Repr;
    }

    constructor Projection(c: Cursor, names: seq<string>)
      requires c.Valid()
      ensures Valid() && fresh(Repr - c.Repr) && kind == PROJECTION && child == c && columns == names
    {
      kind, child, columns := PROJECTION, c, names;
      page, cell, done, root, key, condition := 0, 0, false, 0, 0, None;
      Repr := {this} + c.Repr;
    }
  }

  /** A scan standing on an internal page starts over at the first leaf below it. */
  ghost function ScanPending(t: Tree, page: nat, cell: nat, s: Schema): seq<Row>
    requires WellFormed(t) && page in t.shape
  {
    PageFacts(t, 0, page);
    ScanFrom(t, Leftmost(t, page), if t.pages[page].Leaf? then cell else 0, s)
  }

  /** `build_cursor`. */
  method BuildCursor(plan: Plan, ghost t: Tree, s: Schema) returns (c: Cursor)
    requires WellFormed(t) && RootedAt(plan, t.root)
    ensures c.Valid() && fresh(c.Repr) && c.On(t) && c.Pending(t, s) == PlanRows(t, s, plan)
    decreases plan
  {
    if plan.TableScan? {
      c := new Cursor.Scan(plan.root);
      PageFacts(t, 0, plan.root);
    } else if plan.PkLookup? {
      c := new Cursor.Lookup(plan.root, plan.key);
    } else if plan.Filter? {
      var inner := BuildCursor(plan.child, t, s);
      c := new Cursor.Filter(inner, plan.condition);
    } else {
      var inner := BuildCursor(plan.child, t, s);
      c := new Cursor.Projection(inner, plan.columns);
    }
  }

  ghost predicate RootedAt(plan: Plan, root: nat) {
    match plan
    case TableScan(r) => r == root
    case PkLookup(r, _) => r == root
    case Filter(child, _) => RootedAt(child, root)
    case Projection(child, _) => RootedAt(child, root)
  }

  /** What one call of a `*_next` function does: nothing is left, or the first pending row goes out. */
  ghost predicate Advanced(before: seq<Row>, ok: bool, row: Row, after: seq<Row>) {
    if before == [] then !ok && after == []
    else ok && row == before[0] && after == before[1..]
  }

  /** One step of a scan from cell c of a leaf. */
  lemma ScanUnfold(t: Tree, leaf: nat, c: nat, s: Schema)
    requires WellFormed(t) && leaf in t.shape && leaf in t.pages && t.pages[leaf].Leaf?
    ensures t.pages[leaf].num <= |t.pages[leaf].slots| && leaf < TABLES_MAX_PAGES
    ensures var n := t.pages[leaf];
            if c < n.num then ScanFrom(t, leaf, c, s) == [SlotRow(n, c, s)] + ScanFrom(t, leaf, c + 1, s)
            else if n.next == 0 then ScanFrom(t, leaf, c, s) == []
            else n.next in t.shape && n.next in t.pages && t.pages[n.next].Leaf? && n.next < TABLES_MAX_PAGES
                 && ScanFrom(t, leaf, c, s) == [SlotRow(t.pages[n.next], 0, s)] + ScanFrom(t, n.next, 1, s)
  {
    PageFacts(t, 0, leaf);
    if t.pages[leaf].next != 0 {
      PageFacts(t, 0, t.pages[leaf].next);
    }
  }

  /** From a leaf and a cell number: the next row and where the scan stands after it. */
  method ReadScanRow(pager: Pager, leaf: nat, cell: nat, s: Schema, ghost t: Tree) returns (ok: bool, row: Row, p: nat, c: nat)
    requires pager.Valid() && WellFormed(t) && t.pages == pager.Heap()
    requires leaf in t.shape && leaf in t.pages && t.pages[leaf].Leaf? && leaf in pager.cache
    modifies pager`cache
    ensures pager.Valid() && pager.Heap() == old(pager.Heap())
    ensures old(pager.Recoverable()) ==> pager.Recoverable()
    ensures !ok ==> ScanFrom(t, leaf, cell, s) == []
    ensures ok ==> p in t.shape && p in t.pages && t.pages[p].Leaf?
    ensures ok ==> ScanFrom(t, leaf, cell, s) == [row] + ScanFrom(t, p, c, s)
  {
    ScanUnfold(t, leaf, cell, s);
    row, p, c := [], leaf, cell;
    var curr := pager.cache[leaf];
    if cell >= curr.num {
      if curr.next == 0 {
        return false, row, p, c;
      }
      p := curr.next;
      curr := pager.Fetch(p);
      c := 0;
    }
    row := SlotRow(curr, c, s);
    c := c + 1;
    ok := true;
  }

  /** `table_scan_next`. */
  method TableScanNext(c: Cursor, pager: Pager, s: Schema, ghost t: Tree) returns (ok: bool, row: Row)
    requires c.Valid() && c.kind == TABLE_SCAN && WellFormed(t) && c.On(t)
    requires pager.Valid() && t.pages == pager.Heap()
    modifies c`page, c`cell, c`done, pager`cache
    ensures pager.Valid() && pager.Heap() == old(pager.Heap())
    ensures old(pager.Recoverable()) ==> pager.Recoverable()
    ensures c.On(t)
    ensures Advanced(old(c.Pending(t, s)), ok, row, c.Pending(t, s))
  {
    row := [];
    ok := false;
    if !c.done {
      var leaf, cell := DescendFirst(pager, c.page, c.cell, t);
      ok, row, leaf, cell := ReadScanRow(pager, leaf, cell, s, t);
      if ok {
        c.page := leaf;
        c.cell := cell;
      } else {
        c.done := true;
      }
    }
  }

  /** The descent at the head of `table_scan_next`. */
  method DescendFirst(pager: Pager, page: nat, cell: nat, ghost t: Tree) returns (leaf: nat, c: nat)
    requires pager.Valid() && WellFormed(t) && t.pages == pager.Heap() && page in t.shape
    modifies pager`cache
    ensures pager.Valid() && pager.Heap() == old(pager.Heap()) && leaf in pager.cache
    ensures old(pager.Recoverable()) ==> pager.Recoverable()
    ensures leaf == Leftmost(t, page) && page in t.pages && c == if t.pages[page].Leaf? then cell else 0
  {
    leaf, c := page, cell;
    PageFacts(t, 0, page);
    var curr := pager.Fetch(page);
    while curr.Internal?
      invariant pager.Valid() && pager.Heap() == t.pages
      invariant old(pager.Recoverable()) ==> pager.Recoverable()
      invariant leaf in t.shape && PageOK(t, 0, leaf) && curr == t.pages[leaf] && leaf in pager.cache
      invariant Leftmost(t, page) == Leftmost(t, leaf)
      invariant if leaf == page then c == cell else c == 0 && t.pages[page].Internal?
      invariant t.shape[leaf].level <= t.shape[page].level && (leaf != page ==> t.shape[leaf].level < t.shape[page].level)
      decreases t.shape[leaf].level
    {
      KidFacts(t, 0, leaf, 0);
      leaf := curr.kids[0];
      curr := pager.Fetch(leaf);
      c := 0;
    }
  }

  /** The descent and search of `pk_lookup_next`. */
  method ReadKeyRow(pager: Pager, root: nat, key: Key, s: Schema, ghost t: Tree) returns (ok: bool, row: Row)
    requires pager.Valid() && WellFormed(t) && t.pages == pager.Heap() && root == t.root
    modifies pager`cache
    ensures pager.Valid() && pager.Heap() == old(pager.Heap())
    ensures old(pager.Recoverable()) ==> pager.Recoverable()
    ensures LookupRows(t, key) == if ok then [row] else []
  {
    var leaf := LeafNodeForKey(pager, root, key, t);
    PageFacts(t, 0, leaf);
    ContentsAt(t, key);
    var curr := pager.cache[leaf];
    var i := LeafNodeFind(curr, key);
    ok := i < curr.num && Cells(curr)[i].key == key;
    row := [];
    if ok {
      assert Cells(curr)[i] in Cells(curr);
      row := SlotRow(curr, i, s);
    } else {
      LeafInserts.AbsentFromLeaf(Cells(curr), key, i);
    }
  }

  /** `pk_lookup_next`. */
  method PkLookupNext(c: Cursor, pager: Pager, s: Schema, ghost t: Tree) returns (ok: bool, row: Row)
    requires c.Valid() && c.kind == PK_LOOKUP && WellFormed(t) && c.On(t)
    requires pager.Valid() && t.pages == pager.Heap()
    modifies c`done, pager`cache
    ensures pager.Valid() && pager.Heap() == old(pager.Heap())
    ensures old(pager.Recoverable()) ==> pager.Recoverable()
    ensures c.On(t)
    ensures Advanced(old(c.Pending(t, s)), ok, row, c.Pending(t, s))
  {
    ok, row := false, [];
    if !c.done {
      ok, row := ReadKeyRow(pager, c.root, c.key, s, t);
      c.done := true;
    }
  }

  /** `cursor_next`: dispatch on the cursor's kind. */
  method CursorNext(c: Cursor, pager: Pager, s: Schema, ghost t: Tree) returns (ok: bool, row: Row)
    requires c.Valid() && WellFormed(t) && c.On(t)
    requires pager.Valid() && t.pages == pager.Heap()
    modifies c.Repr, pager`cache
    ensures pager.Valid() && pager.Heap() == old(pager.Heap())
    ensures old(pager.Recoverable()) ==> pager.Recoverable()
    ensures c.On(t)
    ensures Advanced(old(c.Pending(t, s)), ok, row, c.Pending(t, s))
    decreases c.Repr, 1
  {
    match c.kind
    case TABLE_SCAN => ok, row := TableScanNext(c, pager, s, t);
    case PK_LOOKUP => ok, row := PkLookupNext(c, pager, s, t);
    case FILTER => ok, row := FilterNext(c, pager, s, t);
    case PROJECTION => ok, row := ProjectionNext(c, pager, s, t);
  }

  /** `filter_next`: pull from the child until a row passes the condition. */
  method FilterNext(c: Cursor, pager: Pager, s: Schema, ghost t: Tree) returns (ok: bool, row: Row)
    requires c.Valid() && c.kind == FILTER && WellFormed(t) && c.On(t)
    requires pager.Valid() && t.pages == pager.Heap()
    modifies c.Repr, pager`cache
    ensures pager.Valid() && pager.Heap() == old(pager.Heap())
    ensures old(pager.Recoverable()) ==> pager.Recoverable()
    ensures c.On(t)
    ensures Advanced(old(c.Pending(t, s)), ok, row, c.Pending(t, s))
    decreases c.Repr, 0
  {
    ghost var pending := c.Pending(t, s);
    ok, row := CursorNext(c.child, pager, s, t);
    UndrainedStep(s, c.condition, old(c.child.Pending(t, s)), ok, row, c.child.Pending(t, s));
    while ok
      invariant pager.Valid() && pager.Heap() == old(pager.Heap())
      invariant old(pager.Recoverable()) ==> pager.Recoverable()
      invariant c.child.On(t) && (!ok ==> c.child.Pending(t, s) == [])
      invariant pending == Undrained(s, c.condition, ok, row, c.child.Pending(t, s))
      decreases ok, |c.child.Pending(t, s)|
    {
      if Matches(s, c.condition, row) {
        return;
      }
      ghost var rest := c.child.Pending(t, s);
      ok, row := CursorNext(c.child, pager, s, t);
      UndrainedStep(s, c.condition, rest, ok, row, c.child.Pending(t, s));
    }
  }

  /** What a filter has yet to return when it holds a row (if `ok`) that it has not examined. */
  ghost function Undrained(s: Schema, condition: Option<Equals>, ok: bool, row: Row, rest: seq<Row>): seq<Row> {
    if !ok then []
    else (if Matches(s, condition, row) then [row] else []) + FilterRows(s, condition, rest)
  }

  lemma UndrainedStep(s: Schema, condition: Option<Equals>, rest: seq<Row>, ok: bool, row: Row, rest': seq<Row>)
    requires Advanced(rest, ok, row, rest')
    ensures FilterRows(s, condition, rest) == Undrained(s, condition, ok, row, rest')
  {
  }

  /** `projection_next`. */
  method ProjectionNext(c: Cursor, pager: Pager, s: Schema, ghost t: Tree) returns (ok: bool, row: Row)
    requires c.Valid() && c.kind == PROJECTION && WellFormed(t) && c.On(t)
    requires pager.Valid() && t.pages == pager.Heap()
    modifies c.Repr, pager`cache
    ensures pager.Valid() && pager.Heap() == old(pager.Heap())
    ensures old(pager.Recoverable()) ==> pager.Recoverable()
    ensures c.On(t)
    ensures Advanced(old(c.Pending(t, s)), ok, row, c.Pending(t, s))
    decreases c.Repr, 0
  {
    var full;
    ok, full := CursorNext(c.child, pager, s, t);
    row := [];
    if ok {
      row := ProjectOne(s, c.columns, full);
    }
  }

  /** The loops of `projection_next`: for every requested column, the first stored column of that name. */
  method ProjectOne(s: Schema, columns: seq<string>, full: Row) returns (row: Row)
    ensures row == ProjectRow(s, columns, full)
    ensures RowOK(s, full) && columns != [] && (forall i :: 0 <= i < |columns| ==> Named(s, columns[i])) ==>
              Projects(s, columns, full, row)
  {
    row := [];
    var i := 0;
    while i < |columns|
      invariant i <= |columns| && row == ProjectRow(s, columns[..i], full)
    {
      var j := FindColumn(s.columns, columns[i]);
      row := row + [if j < |full| then full[j] else IntVal(0)];
      i := i + 1;
    }
    assert columns[..i] == columns;
    if RowOK(s, full) && columns != [] && forall x :: 0 <= x < |columns| ==> Named(s, columns[x]) {
      ProjectRowMeans(s, columns, full, row);
    }
  }

  /** The SELECT branch of `process_command`: plan, build the cursor, drain it. */
  method RunSelect(pager: Pager, root: nat, s: Schema, sel: Select, ghost t: Tree) returns (rows: seq<Row>)
    requires WellFormed(t) && t.root == root && SchemaOK(s)
    requires pager.Valid() && t.pages == pager.Heap()
    modifies pager`cache
    ensures pager.Valid() && pager.Heap() == old(pager.Heap())
    ensures old(pager.Recoverable()) ==> pager.Recoverable()
    ensures rows == PlanRows(t, s, BuildPlan(s, root, sel))
  {
    var plan := BuildPlan(s, root, sel);
    var c := BuildCursor(plan, t, s);
    rows := Drain(c, pager, s, t);
  }

  /** The loop that prints every row of a SELECT. */
  method Drain(c: Cursor, pager: Pager, s: Schema, ghost t: Tree) returns (rows: seq<Row>)
    requires c.Valid() && WellFormed(t) && c.On(t)
    requires pager.Valid() && t.pages == pager.Heap()
    modifies c.Repr, pager`cache
    ensures pager.Valid() && pager.Heap() == old(pager.Heap())
    ensures old(pager.Recoverable()) ==> pager.Recoverable()
    ensures rows == old(c.Pending(t, s))
  {
    rows := [];
    ghost var all := c.Pending(t, s);
    var ok, row := CursorNext(c, pager, s, t);
    DrainStart(all, ok, row, c.Pending(t, s));
    while ok
      invariant pager.Valid() && pager.Heap() == old(pager.Heap())
      invariant old(pager.Recoverable()) ==> pager.Recoverable()
      invariant c.On(t) && Draining(all, rows, ok, row, c.Pending(t, s))
      decreases ok, |c.Pending(t, s)|
    {
      ghost var before, printed, rest := rows, row, c.Pending(t, s);
      rows := rows + [row];
      ok, row := CursorNext(c, pager, s, t);
      DrainStep(all, before, printed, rest, ok, row, c.Pending(t, s));
    }
  }

  /** Of `all` rows, `rows` have been printed, one more is in hand if `ok`, and `rest` are to come. */
  ghost predicate Draining(all: seq<Row>, rows: seq<Row>, ok: bool, row: Row, rest: seq<Row>) {
    if ok then all == rows + ([row] + rest) else all == rows && rest == []
  }

  lemma DrainStart(all: seq<Row>, ok: bool, row: Row, rest: seq<Row>)
    requires Advanced(all, ok, row, rest)
    ensures Draining(all, [], ok, row, rest)
  {
  }

  lemma DrainStep(all: seq<Row>, rows: seq<Row>, printed: Row, rest: seq<Row>, ok: bool, row: Row, rest': seq<Row>)
    requires Draining(all, rows, true, printed, rest) && Advanced(rest, ok, row, rest')
    ensures Draining(all, rows + [printed], ok, row, rest') && (ok ==> |rest'| < |rest|)
  {
    assert rows + ([printed] + rest) == rows + [printed] + rest;
  }
}
