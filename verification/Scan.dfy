/** The table scan of `src/table.c`, including what it does on empty leaves. */
module Scans {
  import opened Rows
  import opened Pages
  import opened Trees
  import opened Chains
  import opened LeafInserts
  import opened Bulk

  /** A row of zero bytes, as a never-written slot deserializes. */
  function ZeroRow(s: Schema): Row {
    seq(|s.columns|, i requires 0 <= i < |s.columns| =>
          match s.columns[i].kind
          case INTEGER => IntVal(0)
          case TEXT => TextVal(Zeros(VALUE_TEXT_MAX_LEN))
          case BOOLEAN => BoolVal(false))
  }

  /** The row stored in slot i, whether or not the slot is live. */
  function SlotRow(n: Page, i: nat, s: Schema): Row
    requires n.Leaf?
  {
    if i < |n.slots| then n.slots[i].row else ZeroRow(s)
  }

  function RowsOf(cells: seq<Cell>): seq<Row> {
    if cells == [] then [] else [cells[0].row] + RowsOf(cells[1..])
  }

  function FilterRows(s: Schema, where: Option<Equals>, rows: seq<Row>): seq<Row> {
    if rows == [] then []
    else (if Matches(s, where, rows[0]) then [rows[0]] else []) + FilterRows(s, where, rows[1..])
  }

  /** The rows `table_scan_next` still returns from cell c of a leaf. At the end of a leaf it moves
      to the next leaf and returns that leaf's slot 0 without looking at its cell count. */
  ghost function ScanFrom(t: Tree, leaf: nat, c: nat, s: Schema): seq<Row>
    requires WellFormed(t) && leaf in t.shape && leaf in t.pages && t.pages[leaf].Leaf?
    decreases KEY_END - t.shape[leaf].lo, if c < t.pages[leaf].num then t.pages[leaf].num - c else 0
  {
    PageFacts(t, 0, leaf);
    var n := t.pages[leaf];
    if c < n.num then [n.slots[c].row] + ScanFrom(t, leaf, c + 1, s)
    else if n.next == 0 then []
    else
      PageFacts(t, 0, n.next);
      [SlotRow(t.pages[n.next], 0, s)] + ScanFrom(t, n.next, 1, s)
  }

  /** What a leaf other than the first contributes to a scan. */
  function ScanLeaf(n: Page, s: Schema): seq<Row>
    requires n.Leaf?
  {
    if n.num == 0 then [SlotRow(n, 0, s)] else RowsOf(Cells(n))
  }

  ghost function ScanLeaves(h: Heap, leaves: seq<nat>, s: Schema): seq<Row>
    requires forall p :: p in leaves ==> p in h && h[p].Leaf?
  {
    if leaves == [] then [] else ScanLeaf(h[leaves[0]], s) + ScanLeaves(h, leaves[1..], s)
  }

  ghost predicate AllLeaves(h: Heap, leaves: seq<nat>) {
    forall p :: p in leaves ==> p in h && h[p].Leaf? && h[p].num <= |h[p].slots|
  }

  lemma LeavesAreLeaves(t: Tree)
    requires WellFormed(t)
    ensures AllLeaves(t.pages, Leaves(t, t.root)) && |Leaves(t, t.root)| > 0
  {
    RootTiles(t);
    ChainVisitsLeavesInOrder(t);
    forall p | p in Leaves(t, t.root)
      ensures p in t.pages && t.pages[p].Leaf? && t.pages[p].num <= |t.pages[p].slots|
    {
      PageFacts(t, 0, p);
    }
  }

  lemma {:induction false} RowsOfFrom(cells: seq<Cell>, c: nat)
    requires c < |cells|
    ensures RowsOf(cells[c..]) == [cells[c].row] + RowsOf(cells[c + 1..])
  {
    assert cells[c..][1..] == cells[c + 1..];
  }

  /** Within a leaf, the scan returns the remaining live rows and goes on with the next leaf. */
  lemma {:induction false} ScanRestOfLeaf(t: Tree, leaf: nat, c: nat, s: Schema)
    requires WellFormed(t) && leaf in t.shape && leaf in t.pages && t.pages[leaf].Leaf? && PageOK(t, 0, leaf)
    requires c <= t.pages[leaf].num
    ensures ScanFrom(t, leaf, c, s) == RowsOf(Cells(t.pages[leaf])[c..]) + ScanFrom(t, leaf, t.pages[leaf].num, s)
    decreases t.pages[leaf].num - c
  {
    var n := t.pages[leaf];
    if c < n.num {
      ScanRestOfLeaf(t, leaf, c + 1, s);
      RowsOfFrom(Cells(n), c);
      assert Cells(n)[c] == n.slots[c];
    }
  }

  /** Past the last cell of the i-th leaf, the scan returns what the later leaves contribute. */
  lemma {:induction false} ScanLaterLeaves(t: Tree, i: nat, s: Schema)
    requires WellFormed(t) && i < |Leaves(t, t.root)|
    requires AllLeaves(t.pages, Leaves(t, t.root))
    ensures var p := Leaves(t, t.root)[i];
            p in t.shape && ScanFrom(t, p, t.pages[p].num, s) == ScanLeaves(t.pages, Leaves(t, t.root)[i + 1..], s)
    decreases |Leaves(t, t.root)| - i
  {
    var leaves := Leaves(t, t.root);
    LinkFollowsOrder(t, i);
    if i + 1 < |leaves| {
      LinkFollowsOrder(t, i + 1);
      ScanLaterLeaves(t, i + 1, s);
      ScanWholeLeaf(t, leaves[i + 1], s);
      assert leaves[i + 1..][1..] == leaves[i + 2..];
    }
  }

  lemma ScanWholeLeaf(t: Tree, leaf: nat, s: Schema)
    requires WellFormed(t) && leaf in t.shape && leaf in t.pages && t.pages[leaf].Leaf?
    ensures [SlotRow(t.pages[leaf], 0, s)] + ScanFrom(t, leaf, 1, s)
         == ScanLeaf(t.pages[leaf], s) + ScanFrom(t, leaf, t.pages[leaf].num, s)
  {
    PageFacts(t, 0, leaf);
    var n := t.pages[leaf];
    if n.num > 0 {
      ScanRestOfLeaf(t, leaf, 1, s);
      RowsOfFrom(Cells(n), 0);
      assert Cells(n)[0..] == Cells(n);
    } else {
      EmptyLeafExit(t, leaf, s);
    }
  }

  lemma EmptyLeafExit(t: Tree, leaf: nat, s: Schema)
    requires WellFormed(t) && leaf in t.shape && leaf in t.pages && t.pages[leaf].Leaf? && t.pages[leaf].num == 0
    ensures ScanFrom(t, leaf, 1, s) == ScanFrom(t, leaf, 0, s)
  {
    PageFacts(t, 0, leaf);
  }

  /** Everything a full table scan returns. */
  ghost function ScanOutput(t: Tree, s: Schema): seq<Row>
    requires WellFormed(t)
  {
    ScanFrom(t, Leftmost(t, t.root), 0, s)
  }

  lemma ScanByLeaves(t: Tree, s: Schema)
    requires WellFormed(t)
    ensures AllLeaves(t.pages, Leaves(t, t.root)) && |Leaves(t, t.root)| > 0
    ensures ScanOutput(t, s)
         == RowsOf(Cells(t.pages[Leaves(t, t.root)[0]])) + ScanLeaves(t.pages, Leaves(t, t.root)[1..], s)
  {
    LeavesAreLeaves(t);
    LeftmostIsFirst(t, t.root);
    var first := Leaves(t, t.root)[0];
    PageFacts(t, 0, first);
    ScanRestOfLeaf(t, first, 0, s);
    ScanLaterLeaves(t, 0, s);
    assert Cells(t.pages[first])[0..] == Cells(t.pages[first]);
  }

  // When a scan is exact

  /** The stale row an empty leaf would show does not pass the condition. */
  ghost predicate NoStaleShown(t: Tree, s: Schema, where: Option<Equals>) {
    forall p :: p in t.shape && p in t.pages && t.pages[p].Leaf? && t.shape[p].lo != KEY_MIN && t.pages[p].num == 0 ==>
      !Matches(s, where, SlotRow(t.pages[p], 0, s))
  }

  ghost predicate NoStaleIn(h: Heap, leaves: seq<nat>, s: Schema, where: Option<Equals>)
    requires forall p :: p in leaves ==> p in h && h[p].Leaf?
  {
    forall p :: p in leaves && h[p].num == 0 ==> !Matches(s, where, SlotRow(h[p], 0, s))
  }

  lemma {:induction false} RowsOfConcat(a: seq<Cell>, b: seq<Cell>)
    ensures RowsOf(a + b) == RowsOf(a) + RowsOf(b)
  {
    if a == [] {
      assert a + b == b;
    } else {
      RowsOfConcat(a[1..], b);
      assert (a + b)[1..] == a[1..] + b;
    }
  }

  lemma {:induction false} FilterConcat(s: Schema, where: Option<Equals>, a: seq<Row>, b: seq<Row>)
    ensures FilterRows(s, where, a + b) == FilterRows(s, where, a) + FilterRows(s, where, b)
  {
    if a == [] {
      assert a + b == b;
    } else {
      FilterConcat(s, where, a[1..], b);
      assert (a + b)[1..] == a[1..] + b;
      var head := if Matches(s, where, a[0]) then [a[0]] else [];
      assert head + (FilterRows(s, where, a[1..]) + FilterRows(s, where, b))
          == (head + FilterRows(s, where, a[1..])) + FilterRows(s, where, b);
    }
  }

  /** Over a list of later leaves, the scan's surplus is exactly the stale rows it shows. */
  lemma {:induction false} LaterLeavesExact(h: Heap, leaves: seq<nat>, s: Schema, where: Option<Equals>)
    requires AllLeaves(h, leaves)
    ensures |FilterRows(s, where, ScanLeaves(h, leaves, s))| >= |FilterRows(s, where, RowsOf(CellsAlong(h, leaves)))|
    ensures NoStaleIn(h, leaves, s, where) ==>
              FilterRows(s, where, ScanLeaves(h, leaves, s)) == FilterRows(s, where, RowsOf(CellsAlong(h, leaves)))
    ensures !NoStaleIn(h, leaves, s, where) ==>
              |FilterRows(s, where, ScanLeaves(h, leaves, s))| > |FilterRows(s, where, RowsOf(CellsAlong(h, leaves)))|
  {
    if leaves != [] {
      var n, rest := h[leaves[0]], leaves[1..];
      assert forall p :: p in leaves <==> p == leaves[0] || p in rest;
      LaterLeavesExact(h, rest, s, where);
      RowsOfConcat(Cells(n), CellsAlong(h, rest));
      FilterConcat(s, where, ScanLeaf(n, s), ScanLeaves(h, rest, s));
      FilterConcat(s, where, RowsOf(Cells(n)), RowsOf(CellsAlong(h, rest)));
      if n.num == 0 {
        FilterOne(s, where, SlotRow(n, 0, s));
      }
    }
  }

  lemma FilterOne(s: Schema, where: Option<Equals>, row: Row)
    ensures FilterRows(s, where, [row]) == if Matches(s, where, row) then [row] else []
  {
    assert FilterRows(s, where, [row][1..]) == [];
  }

  /** A filtered scan returns the stored matching rows in key order exactly when no empty leaf after
      the first shows a stale row that matches. */
  lemma FilteredScanExact(t: Tree, s: Schema, where: Option<Equals>)
    requires WellFormed(t)
    ensures FilterRows(s, where, ScanOutput(t, s)) == FilterRows(s, where, RowsOf(InOrder(t))) <==> NoStaleShown(t, s, where)
    ensures FilterRows(s, where, ScanOutput(t, s)) != FilterRows(s, where, RowsOf(InOrder(t))) ==>
              |FilterRows(s, where, ScanOutput(t, s))| > |FilterRows(s, where, RowsOf(InOrder(t)))|
  {
    ScanByLeaves(t, s);
    var leaves := Leaves(t, t.root);
    var first := RowsOf(Cells(t.pages[leaves[0]]));
    RowsOfConcat(Cells(t.pages[leaves[0]]), CellsAlong(t.pages, leaves[1..]));
    FilterConcat(s, where, first, ScanLeaves(t.pages, leaves[1..], s));
    FilterConcat(s, where, first, RowsOf(CellsAlong(t.pages, leaves[1..])));
    LaterLeavesExact(t.pages, leaves[1..], s, where);
    LaterLeavesAre(t);
    assert NoStaleShown(t, s, where) <==> NoStaleIn(t.pages, leaves[1..], s, where);
  }

  lemma LaterLeavesAre(t: Tree)
    requires WellFormed(t)
    ensures |Leaves(t, t.root)| > 0
    ensures forall p :: p in Leaves(t, t.root)[1..] <==>
              p in t.shape && p in t.pages && t.pages[p].Leaf? && t.shape[p].lo != KEY_MIN
  {
    var leaves := Leaves(t, t.root);
    RootTiles(t);
    ChainVisitsLeavesInOrder(t);
    forall p
      ensures p in leaves[1..] <==> p in t.shape && p in t.pages && t.pages[p].Leaf? && t.shape[p].lo != KEY_MIN
    {
      if p in leaves[1..] {
        var i :| 0 <= i < |leaves[1..]| && leaves[1..][i] == p;
        TilesIncrease(t, leaves, KEY_MIN, KEY_END, 0, i + 1);
        PageFacts(t, 0, leaves[0]);
      } else if p in leaves {
        assert leaves == [leaves[0]] + leaves[1..];
      }
    }
  }

  lemma {:induction false} FilterAll(s: Schema, rows: seq<Row>)
    ensures FilterRows(s, None, rows) == rows
  {
    if rows != [] {
      FilterAll(s, rows[1..]);
      assert rows == [rows[0]] + rows[1..];
    }
  }

  /** A plain scan returns every stored row once, in key order, exactly when every leaf after the
      first is non-empty. */
  lemma ScanExact(t: Tree, s: Schema)
    requires WellFormed(t)
    ensures ScanOutput(t, s) == RowsOf(InOrder(t)) <==> LaterLeavesNonEmpty(t)
  {
    FilteredScanExact(t, s, None);
    FilterAll(s, ScanOutput(t, s));
    FilterAll(s, RowsOf(InOrder(t)));
    assert NoStaleShown(t, s, None) <==> LaterLeavesNonEmpty(t);
  }

  // Deleted rows that a scan still returns

  /** Emptying a leaf leaves its last row behind in slot 0. */
  lemma {:induction false} EmptiedLeaf(n: Page, s: Schema)
    requires n.Leaf? && 0 < n.num <= |n.slots|
    ensures DeleteFrom(n, 0, s, None).num == 0 && |DeleteFrom(n, 0, s, None).slots| > 0
    ensures DeleteFrom(n, 0, s, None).slots[0] == n.slots[n.num - 1]
    decreases n.num
  {
    var n' := RemoveSlot(n, 0);
    if n'.num > 0 {
      EmptiedLeaf(n', s);
    }
  }

  /** A walk is determined by its first leaf and the links. */
  lemma {:induction false} WalkUnique(h: Heap, h': Heap, a: seq<nat>, b: seq<nat>)
    requires IsWalk(h, a) && IsWalk(h', b) && a[0] == b[0]
    requires forall p :: p in h && p in h' && h[p].Leaf? && h'[p].Leaf? ==> h[p].next == h'[p].next
    ensures a == b
    decreases |a|
  {
    assert IsStop(h, a, 0) && IsStop(h', b, 0);
    assert |a| > 1 ==> IsStop(h, a, 1);
    assert |b| > 1 ==> IsStop(h', b, 1);
    if |a| > 1 {
      WalkTail(h, a);
      WalkTail(h', b);
      WalkUnique(h, h', a[1..], b[1..]);
      assert a == [a[0]] + a[1..] && b == [b[0]] + b[1..];
    }
  }

  lemma WalkTail(h: Heap, a: seq<nat>)
    requires IsWalk(h, a) && |a| > 1
    ensures IsWalk(h, a[1..])
  {
    forall i | 0 <= i < |a[1..]|
      ensures IsStop(h, a[1..], i)
    {
      assert IsStop(h, a, i + 1);
    }
  }

  /** Editing cells changes neither the leaves nor their order. */
  lemma EditedLeaves(t: Tree, f: Page -> Page)
    requires WellFormed(t) && Edits(t, f)
    ensures WellFormed(Edited(t, f)) && Leaves(Edited(t, f), t.root) == Leaves(t, t.root)
  {
    EditedKeepsTree(t, f);
    var t' := Edited(t, f);
    RootWalk(t);
    RootWalk(t');
    RootTiles(t);
    RootTiles(t');
    ChainVisitsLeavesInOrder(t);
    var a, b := Leaves(t, t.root)[0], Leaves(t', t.root)[0];
    LeafLevel(t', 0, a);
    LeafLevel(t', 0, b);
    SameLevelDisjoint(t', 0, a, b, KEY_MIN);
    EditedLinks(t, f);
    WalkUnique(t.pages, t'.pages, Leaves(t, t.root), Leaves(t', t.root));
  }

  lemma EditedLinks(t: Tree, f: Page -> Page)
    requires WellFormed(t) && Edits(t, f)
    ensures forall p :: p in t.pages && t.pages[p].Leaf? && Edited(t, f).pages[p].Leaf? ==>
              t.pages[p].next == Edited(t, f).pages[p].next
  {
    ChainVisitsLeavesInOrder(t);
  }

  /** A scan over empty leaves shows slot 0 of each. */
  lemma {:induction false} EmptyLeavesScan(h: Heap, leaves: seq<nat>, s: Schema)
    requires AllLeaves(h, leaves) && (forall p :: p in leaves ==> h[p].num == 0)
    ensures |ScanLeaves(h, leaves, s)| == |leaves|
    ensures forall i :: 0 <= i < |leaves| ==> leaves[i] in h && ScanLeaves(h, leaves, s)[i] == SlotRow(h[leaves[i]], 0, s)
  {
    if leaves != [] {
      EmptyLeavesScan(h, leaves[1..], s);
      assert forall i :: 1 <= i < |leaves| ==> leaves[i] == leaves[1..][i - 1];
    }
  }

  ghost function LaterLeaves(t: Tree): seq<nat>
    requires WellFormed(t)
  {
    RootTiles(t);
    Leaves(t, t.root)[1..]
  }

  /** What deleting every row does to a leaf. */
  ghost predicate EmptiedPage(n: Page, n': Page) {
    && n.Leaf? && n'.Leaf? && n.num <= |n.slots| && n'.num <= |n'.slots| && n'.num == 0
    && (n.num > 0 ==> |n'.slots| > 0 && n'.slots[0] == n.slots[n.num - 1])
  }

  lemma AllEmptied(t: Tree, s: Schema)
    requires WellFormed(t)
    ensures forall p :: p in Leaves(t, t.root) ==>
              p in t.pages && p in Edited(t, DeleteEdit(s, None)).pages
              && EmptiedPage(t.pages[p], Edited(t, DeleteEdit(s, None)).pages[p])
  {
    LeavesAreLeaves(t);
    forall p | p in Leaves(t, t.root)
      ensures EmptiedPage(t.pages[p], DeleteFrom(t.pages[p], 0, s, None))
    {
      var n := t.pages[p];
      if n.num > 0 {
        EmptiedLeaf(n, s);
      }
    }
  }

  /** A DELETE without condition empties the table, yet a scan afterwards still returns one deleted
      row for every leaf but the first: the last row that leaf held. */
  lemma DeletedRowsReturn(t: Tree, s: Schema)
    requires WellFormed(t) && LaterLeavesNonEmpty(t)
    ensures WellFormed(Edited(t, DeleteEdit(s, None))) && Contents(Edited(t, DeleteEdit(s, None))) == map[]
    ensures var rows := ScanOutput(Edited(t, DeleteEdit(s, None)), s); var later := LaterLeaves(t);
            && |rows| == |later|
            && forall i :: 0 <= i < |later| ==>
                 && later[i] in t.pages && Cells(t.pages[later[i]]) != []
                 && rows[i] == Cells(t.pages[later[i]])[|Cells(t.pages[later[i]])| - 1].row
  {
    EmptiedOutput(t, s);
    LaterLeavesAre(t);
    EmptyLeavesScan(Edited(t, DeleteEdit(s, None)).pages, LaterLeaves(t), s);
    AllEmptied(t, s);
    LaterAmongLeaves(t);
  }

  lemma LaterAmongLeaves(t: Tree)
    requires WellFormed(t)
    ensures forall p :: p in LaterLeaves(t) ==> p in Leaves(t, t.root)
  {
  }

  lemma EmptiedOutput(t: Tree, s: Schema)
    requires WellFormed(t)
    ensures WellFormed(Edited(t, DeleteEdit(s, None))) && Contents(Edited(t, DeleteEdit(s, None))) == map[]
    ensures AllLeaves(Edited(t, DeleteEdit(s, None)).pages, LaterLeaves(t))
    ensures forall p :: p in LaterLeaves(t) ==> Edited(t, DeleteEdit(s, None)).pages[p].num == 0
    ensures ScanOutput(Edited(t, DeleteEdit(s, None)), s) == ScanLeaves(Edited(t, DeleteEdit(s, None)).pages, LaterLeaves(t), s)
  {
    var t' := Edited(t, DeleteEdit(s, None));
    DeleteContents(t, s, None);
    DeleteEdits(t, s, None);
    EditedLeaves(t, DeleteEdit(s, None));
    ScanByLeaves(t', s);
    AllEmptied(t, s);
    LaterAmongLeaves(t);
    assert Cells(t'.pages[Leaves(t, t.root)[0]]) == [];
  }
}
