/** DELETE and UPDATE: walks along the leaf chain that edit every leaf in place. */
module Bulk {
  import opened Rows
  import opened Pages
  import opened Trees
  import opened Chains
  import opened Pagers

  // Typed trees

  /** Every slot of every leaf, live or stale, holds a row of the table's schema. */
  ghost predicate Typed(t: Tree, s: Schema) {
    forall c :: c in AllSlots(t) ==> RowOK(s, c.row)
  }

  /** The key of every stored cell is the primary-key value of its row. */
  ghost predicate KeysAgree(t: Tree, s: Schema) {
    forall c :: c in CellSet(t) ==> s.pk < |c.row| && c.row[s.pk] == IntVal(c.key)
  }

  lemma TypedCells(t: Tree, s: Schema, c: Cell)
    requires Typed(t, s) && c in CellSet(t)
    ensures RowOK(s, c.row)
  {
    CellInSlots(t, c);
  }

  // Rewriting all leaves

  /** The heap after f has been applied to the pages listed in s. */
  ghost function MapPages(h: Heap, s: seq<nat>, f: Page -> Page): Heap {
    map p | p in h :: if p in s then f(h[p]) else h[p]
  }

  /** f edits the cells of a leaf and nothing else about it. */
  ghost predicate LeafEdit(n: Page, n': Page) {
    n.Leaf? && n'.Leaf? && n' == n.(num := n'.num, slots := n'.slots)
  }

  ghost predicate Edits(t: Tree, f: Page -> Page) {
    forall p {:trigger t.pages[p]} :: p in t.shape && p in t.pages && t.pages[p].Leaf? ==>
      LeafEdit(t.pages[p], f(t.pages[p])) && LeafOK(f(t.pages[p]), t.shape[p], t.cap)
  }

  /** The tree after f has been applied to every leaf. */
  ghost function Edited(t: Tree, f: Page -> Page): Tree
    requires WellFormed(t)
  {
    t.(pages := MapPages(t.pages, Leaves(t, t.root), f))
  }

  lemma EditedKeepsTree(t: Tree, f: Page -> Page)
    requires WellFormed(t) && Edits(t, f)
    ensures WellFormed(Edited(t, f))
    ensures Parented(t) ==> Parented(Edited(t, f))
  {
    var t' := Edited(t, f);
    ChainVisitsLeavesInOrder(t);
    forall p | p in t'.shape
      ensures PageOK(t', 0, p)
    {
      PageFacts(t, 0, p);
    }
    if Parented(t) {
      forall p | p in t'.shape && p in t'.pages
        ensures ParentOK(t', p)
      {
        assert ParentOK(t, p);
        PageFacts(t, 0, p);
      }
    }
  }

  lemma EditedCells(t: Tree, f: Page -> Page, c: Cell)
    requires WellFormed(t) && Edits(t, f)
    ensures c in CellSet(Edited(t, f)) <==>
            exists p :: p in t.shape && p in t.pages && t.pages[p].Leaf? && c in Cells(f(t.pages[p]))
  {
    var t' := Edited(t, f);
    ChainVisitsLeavesInOrder(t);
    forall p | p in t.shape
      ensures p in t.pages && p in t'.pages
      ensures Cells(t'.pages[p]) == if t.pages[p].Leaf? then Cells(f(t.pages[p])) else []
    {
      PageFacts(t, 0, p);
    }
  }

  // The leaf chain as the methods walk it

  /** `while (node is internal) node = first child`. */
  method FirstLeaf(pager: Pager, root: nat, ghost t: Tree) returns (leaf: nat)
    requires pager.Valid() && WellFormed(t) && t.root == root && t.pages == pager.Heap()
    modifies pager`cache
    ensures pager.Valid() && pager.Heap() == old(pager.Heap()) && leaf in pager.cache
    ensures old(pager.Recoverable()) ==> pager.Recoverable()
    ensures |Leaves(t, root)| > 0 && leaf == Leaves(t, root)[0]
  {
    leaf := root;
    PageFacts(t, 0, root);
    LeftmostIsFirst(t, root);
    var page := pager.Fetch(root);
    while page.Internal?
      invariant pager.Valid() && pager.Heap() == t.pages
      invariant old(pager.Recoverable()) ==> pager.Recoverable()
      invariant leaf in t.shape && PageOK(t, 0, leaf) && page == t.pages[leaf] && leaf in pager.cache
      invariant Leftmost(t, root) == Leftmost(t, leaf)
      decreases t.shape[leaf].level
    {
      KidFacts(t, 0, leaf, 0);
      leaf := page.kids[0];
      page := pager.Fetch(leaf);
    }
  }

  // DELETE

  /** The inner loop of `delete_command` from index i on: a removed slot is examined again. */
  function DeleteFrom(n: Page, i: nat, s: Schema, where: Option<Equals>): (r: Page)
    requires n.Leaf? && i <= n.num <= |n.slots|
    ensures r.Leaf? && r == n.(num := r.num, slots := r.slots) && r.num <= n.num && |r.slots| == |n.slots|
    decreases n.num - i
  {
    if i == n.num then n
    else if Matches(s, where, n.slots[i].row) then DeleteFrom(RemoveSlot(n, i), i, s, where)
    else DeleteFrom(n, i + 1, s, where)
  }

  ghost function DeleteEdit(s: Schema, where: Option<Equals>): Page -> Page {
    (n: Page) => if n.Leaf? && n.num <= |n.slots| then DeleteFrom(n, 0, s, where) else n
  }

  /** The cells a condition does not match. */
  function Kept(cells: seq<Cell>, s: Schema, where: Option<Equals>): seq<Cell> {
    if cells == [] then []
    else (if Matches(s, where, cells[0].row) then [] else [cells[0]]) + Kept(cells[1..], s, where)
  }

  lemma {:induction false} DeleteFromCells(n: Page, i: nat, s: Schema, where: Option<Equals>)
    requires n.Leaf? && i <= n.num <= |n.slots|
    ensures Cells(DeleteFrom(n, i, s, where)) == Cells(n)[..i] + Kept(Cells(n)[i..], s, where)
    decreases n.num - i
  {
    if i < n.num {
      KeptStep(Cells(n), i, s, where);
      if Matches(s, where, n.slots[i].row) {
        RemoveSplit(n, i);
        DeleteFromCells(RemoveSlot(n, i), i, s, where);
      } else {
        DeleteFromCells(n, i + 1, s, where);
      }
    }
  }

  lemma RemoveSplit(n: Page, i: nat)
    requires n.Leaf? && i < n.num <= |n.slots|
    ensures Cells(RemoveSlot(n, i))[..i] == Cells(n)[..i] && Cells(RemoveSlot(n, i))[i..] == Cells(n)[i + 1..]
  {
  }

  lemma KeptStep(cells: seq<Cell>, i: nat, s: Schema, where: Option<Equals>)
    requires i < |cells|
    ensures Matches(s, where, cells[i].row) ==> Kept(cells[i..], s, where) == Kept(cells[i + 1..], s, where)
    ensures !Matches(s, where, cells[i].row) ==>
              cells[..i + 1] + Kept(cells[i + 1..], s, where) == cells[..i] + Kept(cells[i..], s, where)
  {
    assert cells[i..][1..] == cells[i + 1..];
    assert cells[..i + 1] == cells[..i] + [cells[i]];
  }

  lemma {:induction false} KeptFacts(cells: seq<Cell>, s: Schema, where: Option<Equals>)
    ensures forall c :: c in Kept(cells, s, where) <==> c in cells && !Matches(s, where, c.row)
    ensures SortedCells(cells) ==> SortedCells(Kept(cells, s, where))
  {
    if cells != [] {
      KeptFacts(cells[1..], s, where);
      assert cells == [cells[0]] + cells[1..];
      if SortedCells(cells) {
        var rest := Kept(cells[1..], s, where);
        assert forall j :: 0 <= j < |rest| ==> rest[j] in rest;
        assert forall c :: c in cells[1..] ==> cells[0].key < c.key;
      }
    }
  }

  /** The slots a deletion leaves behind are a rearrangement of the slots it found. */
  lemma {:induction false} DeleteFromSlots(n: Page, i: nat, s: Schema, where: Option<Equals>)
    requires n.Leaf? && i <= n.num <= |n.slots|
    ensures forall c :: c in DeleteFrom(n, i, s, where).slots ==> c in n.slots
    decreases n.num - i
  {
    if i < n.num {
      if Matches(s, where, n.slots[i].row) {
        var n' := RemoveSlot(n, i);
        DeleteFromSlots(n', i, s, where);
        assert forall c :: c in n'.slots ==> c in n.slots;
      } else {
        DeleteFromSlots(n, i + 1, s, where);
      }
    }
  }

  lemma DeleteEdits(t: Tree, s: Schema, where: Option<Equals>)
    requires WellFormed(t)
    ensures Edits(t, DeleteEdit(s, where))
  {
    var f := DeleteEdit(s, where);
    forall p | p in t.shape && p in t.pages && t.pages[p].Leaf?
      ensures LeafEdit(t.pages[p], f(t.pages[p])) && LeafOK(f(t.pages[p]), t.shape[p], t.cap)
    {
      PageFacts(t, 0, p);
      var n := t.pages[p];
      DeleteFromCells(n, 0, s, where);
      assert Cells(n)[0..] == Cells(n);
      KeptFacts(Cells(n), s, where);
      var n' := f(n);
      forall i | 0 <= i < n'.num
        ensures t.shape[p].lo <= n'.slots[i].key < t.shape[p].hi
      {
        assert Cells(n')[i] in Kept(Cells(n), s, where);
        var j :| 0 <= j < |Cells(n)| && Cells(n)[j] == Cells(n')[i];
        assert n.slots[j] == n'.slots[i];
      }
    }
  }

  /** DELETE removes exactly the matching cells and keeps the tree. */
  lemma DeleteRefinesFilter(t: Tree, s: Schema, where: Option<Equals>)
    requires WellFormed(t)
    ensures WellFormed(Edited(t, DeleteEdit(s, where)))
    ensures Parented(t) ==> Parented(Edited(t, DeleteEdit(s, where)))
    ensures CellSet(Edited(t, DeleteEdit(s, where))) == set c | c in CellSet(t) && !Matches(s, where, c.row)
    ensures InOrder(Edited(t, DeleteEdit(s, where))) == Kept(InOrder(t), s, where)
    ensures Typed(t, s) ==> Typed(Edited(t, DeleteEdit(s, where)), s)
    ensures KeysAgree(t, s) ==> KeysAgree(Edited(t, DeleteEdit(s, where)), s)
  {
    DeleteEdits(t, s, where);
    EditedKeepsTree(t, DeleteEdit(s, where));
    DeleteCellSet(t, s, where);
    DeleteOrder(t, s, where);
    if Typed(t, s) {
      DeleteKeepsTyped(t, s, where);
    }
  }

  lemma DeleteCellSet(t: Tree, s: Schema, where: Option<Equals>)
    requires WellFormed(t)
    ensures CellSet(Edited(t, DeleteEdit(s, where))) == set c | c in CellSet(t) && !Matches(s, where, c.row)
  {
    var f := DeleteEdit(s, where);
    DeleteEdits(t, s, where);
    forall c
      ensures c in CellSet(Edited(t, f)) <==> c in CellSet(t) && !Matches(s, where, c.row)
    {
      EditedCells(t, f, c);
      DeleteLeafCells(t, s, where, c);
    }
  }

  lemma DeleteOrder(t: Tree, s: Schema, where: Option<Equals>)
    requires WellFormed(t)
    ensures WellFormed(Edited(t, DeleteEdit(s, where)))
    ensures InOrder(Edited(t, DeleteEdit(s, where))) == Kept(InOrder(t), s, where)
  {
    var t' := Edited(t, DeleteEdit(s, where));
    DeleteEdits(t, s, where);
    EditedKeepsTree(t, DeleteEdit(s, where));
    DeleteCellSet(t, s, where);
    InOrderEnumerates(t);
    InOrderEnumerates(t');
    KeptFacts(InOrder(t), s, where);
    SortedEnumerationUnique(InOrder(t'), Kept(InOrder(t), s, where));
  }

  /** The rows a condition does not match. */
  function KeptRows(s: Schema, rows: map<Key, Row>, where: Option<Equals>): map<Key, Row> {
    map k | k in rows && !Matches(s, where, rows[k]) :: rows[k]
  }

  /** DELETE as a map operation: the rows that do not match stay, the others go. */
  lemma DeleteContents(t: Tree, s: Schema, where: Option<Equals>)
    requires WellFormed(t)
    ensures WellFormed(Edited(t, DeleteEdit(s, where)))
    ensures Contents(Edited(t, DeleteEdit(s, where))) == KeptRows(s, Contents(t), where)
  {
    DeleteRefinesFilter(t, s, where);
    FilteredMap(Contents(t), Contents(Edited(t, DeleteEdit(s, where))), CellSet(t), s, where);
  }

  lemma FilteredMap(m: map<Key, Row>, m': map<Key, Row>, cells: set<Cell>, s: Schema, where: Option<Equals>)
    requires forall c :: c in cells ==> c.key in m && m[c.key] == c.row
    requires forall k :: k in m ==> Cell(k, m[k]) in cells
    requires forall c :: c in cells && !Matches(s, where, c.row) ==> c.key in m' && m'[c.key] == c.row
    requires forall k :: k in m' ==> Cell(k, m'[k]) in cells && !Matches(s, where, m'[k])
    ensures m' == KeptRows(s, m, where)
  {
    forall k | k in m'
      ensures k in m && m[k] == m'[k]
    {
      assert Cell(k, m'[k]) in cells;
    }
    forall k | k in m && !Matches(s, where, m[k])
      ensures k in m'
    {
      assert Cell(k, m[k]) in cells;
    }
  }

  lemma DeleteLeafCells(t: Tree, s: Schema, where: Option<Equals>, c: Cell)
    requires WellFormed(t)
    ensures (exists p :: p in t.shape && p in t.pages && t.pages[p].Leaf? && c in Cells(DeleteEdit(s, where)(t.pages[p])))
            <==> c in CellSet(t) && !Matches(s, where, c.row)
  {
    var f := DeleteEdit(s, where);
    forall p | p in t.shape && p in t.pages && t.pages[p].Leaf?
      ensures c in Cells(f(t.pages[p])) <==> c in Cells(t.pages[p]) && !Matches(s, where, c.row)
    {
      PageFacts(t, 0, p);
      var n := t.pages[p];
      DeleteFromCells(n, 0, s, where);
      assert Cells(n)[0..] == Cells(n);
      KeptFacts(Cells(n), s, where);
    }
  }

  /** DELETE puts no new cell into any slot. */
  lemma DeleteSlotsStay(t: Tree, s: Schema, where: Option<Equals>)
    requires WellFormed(t)
    ensures AllSlots(Edited(t, DeleteEdit(s, where))) <= AllSlots(t)
  {
    var t' := Edited(t, DeleteEdit(s, where));
    forall c | c in AllSlots(t')
      ensures c in AllSlots(t)
    {
      var p :| p in t'.shape && p in t'.pages && t'.pages[p].Leaf? && c in t'.pages[p].slots;
      PageFacts(t, 0, p);
      if t'.pages[p] != t.pages[p] {
        DeleteFromSlots(t.pages[p], 0, s, where);
      }
      assert c in t.pages[p].slots;
    }
  }

  lemma DeleteKeepsTyped(t: Tree, s: Schema, where: Option<Equals>)
    requires WellFormed(t) && Typed(t, s)
    ensures Typed(Edited(t, DeleteEdit(s, where)), s)
  {
    DeleteSlotsStay(t, s, where);
  }

  /** The inner loop of `delete_command` over one page buffer. */
  method DeleteCells(page: Page, s: Schema, where: Option<Equals>) returns (n: Page, dirty: bool)
    requires page.Leaf? && page.num <= |page.slots|
    ensures n == DeleteFrom(page, 0, s, where) && (dirty || n == page)
  {
    var i := 0;
    dirty := false;
    n := page;
    while i < n.num
      invariant n.Leaf? && i <= n.num <= |n.slots| && (dirty || n == page)
      invariant DeleteFrom(page, 0, s, where) == DeleteFrom(n, i, s, where)
      decreases n.num - i
    {
      if Matches(s, where, n.slots[i].row) {
        n := RemoveSlot(n, i);
        dirty := true;
      } else {
        i := i + 1;
      }
    }
  }

  method DeleteFromLeaf(pager: Pager, p: nat, s: Schema, where: Option<Equals>) returns (next: nat)
    requires pager.Valid() && p in pager.cache && pager.cache[p].Leaf? && pager.cache[p].num <= |pager.cache[p].slots|
    modifies pager`cache, pager`dirty
    ensures old(pager.dirty) <= pager.dirty
    ensures pager.Valid() && next == old(pager.cache[p]).next
    ensures pager.Heap() == old(pager.Heap())[p := DeleteFrom(old(pager.cache[p]), 0, s, where)]
    ensures old(pager.Recoverable()) ==> pager.Recoverable()
  {
    next := pager.cache[p].next;
    var n, dirty := DeleteCells(pager.cache[p], s, where);
    pager.Write(p, n);
    if dirty {
      pager.MarkDirty(p);
    }
  }

  /** The i-th page of s is a leaf, linked to the one after it. */
  ghost predicate IsStop(h: Heap, s: seq<nat>, i: nat)
    requires i < |s|
  {
    && s[i] in h && 0 < s[i] < TABLES_MAX_PAGES && h[s[i]].Leaf? && h[s[i]].num <= |h[s[i]].slots|
    && h[s[i]].next == if i + 1 < |s| then s[i + 1] else 0
  }

  /** The pages in s are distinct leaves, each linked to the next. */
  ghost predicate IsWalk(h: Heap, s: seq<nat>) {
    && |s| > 0
    && (forall i {:trigger IsStop(h, s, i)} :: 0 <= i < |s| ==> IsStop(h, s, i))
    && (forall i, j :: 0 <= i < j < |s| ==> s[i] != s[j])
  }

  lemma RootWalk(t: Tree)
    requires WellFormed(t)
    ensures IsWalk(t.pages, Leaves(t, t.root))
  {
    ChainVisitsLeavesInOrder(t);
    RootTiles(t);
    var s := Leaves(t, t.root);
    forall i | 0 <= i < |s|
      ensures IsStop(t.pages, s, i)
    {
      LinkFollowsOrder(t, i);
      PageFacts(t, 0, s[i]);
    }
  }

  lemma MapPagesStep(h: Heap, s: seq<nat>, i: nat, f: Page -> Page)
    requires IsWalk(h, s) && i < |s|
    ensures s[i] in MapPages(h, s[..i], f) && MapPages(h, s[..i], f)[s[i]] == h[s[i]]
    ensures MapPages(h, s[..i + 1], f) == MapPages(h, s[..i], f)[s[i] := f(h[s[i]])]
  {
    assert IsStop(h, s, i);
    assert s[..i + 1] == s[..i] + [s[i]];
  }

  /** Edit the i-th leaf and move on to the next one. */
  method DeleteStep(pager: Pager, leaf: nat, s: Schema, where: Option<Equals>, ghost h: Heap, ghost walk: seq<nat>, ghost i: nat)
    returns (next: nat)
    requires pager.Valid() && IsWalk(h, walk) && i < |walk| && leaf == walk[i] && leaf in pager.cache
    requires pager.Heap() == MapPages(h, walk[..i], DeleteEdit(s, where))
    modifies pager`cache, pager`dirty
    ensures old(pager.dirty) <= pager.dirty
    ensures pager.Valid() && pager.Heap() == MapPages(h, walk[..i + 1], DeleteEdit(s, where))
    ensures next == if i + 1 < |walk| then walk[i + 1] else 0
    ensures i + 1 < |walk| ==> next != 0 && next in pager.cache
    ensures old(pager.Recoverable()) ==> pager.Recoverable()
  {
    MapPagesStep(h, walk, i, DeleteEdit(s, where));
    assert IsStop(h, walk, i) && (i + 1 < |walk| ==> IsStop(h, walk, i + 1));
    next := DeleteFromLeaf(pager, leaf, s, where);
    if next != 0 {
      var page := pager.Fetch(next);
    }
  }

  /** `delete_command`. */
  method DeleteRows(pager: Pager, root: nat, s: Schema, where: Option<Equals>, ghost t: Tree)
    requires pager.Valid() && WellFormed(t) && t.root == root && t.pages == pager.Heap()
    modifies pager`cache, pager`dirty
    ensures old(pager.dirty) <= pager.dirty
    ensures pager.Valid() && pager.Heap() == Edited(t, DeleteEdit(s, where)).pages
    ensures old(pager.Recoverable()) ==> pager.Recoverable()
  {
    var leaf := FirstLeaf(pager, root, t);
    RootWalk(t);
    DeleteWalk(pager, leaf, s, where, Leaves(t, root));
  }

  method DeleteWalk(pager: Pager, first: nat, s: Schema, where: Option<Equals>, ghost walk: seq<nat>)
    requires pager.Valid() && IsWalk(pager.Heap(), walk) && first == walk[0] && first in pager.cache
    modifies pager`cache, pager`dirty
    ensures old(pager.dirty) <= pager.dirty
    ensures pager.Valid() && pager.Heap() == MapPages(old(pager.Heap()), walk, DeleteEdit(s, where))
    ensures old(pager.Recoverable()) ==> pager.Recoverable()
  {
    var leaf := first;
    ghost var i := 0;
    ghost var h: Heap := pager.Heap();
    assert IsStop(h, walk, 0);
    while leaf != 0
      invariant i <= |walk|
      invariant if i < |walk| then leaf == walk[i] && leaf != 0 && leaf in pager.cache else leaf == 0
      invariant pager.Valid() && pager.Heap() == MapPages(h, walk[..i], DeleteEdit(s, where))
      invariant old(pager.Recoverable()) ==> pager.Recoverable()
      invariant old(pager.dirty) <= pager.dirty
      decreases |walk| - i
    {
      leaf := DeleteStep(pager, leaf, s, where, h, walk, i);
      i := i + 1;
    }
    assert walk[..i] == walk;
  }
}
