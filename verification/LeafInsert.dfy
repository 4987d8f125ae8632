/** INSERT at the leaf: the in-place insert, the leaf split, and `insert_command` as a whole. */
module LeafInserts {
  import opened Rows
  import opened Meanings
  import opened Pages
  import opened Trees
  import opened Splits
  import opened Pagers
  import opened Inserts

  /** t' owns the pages of t plus fresh ones; everything outside the tree is as it was. */
  ghost predicate Grows(t: Tree, t': Tree) {
    && t'.root == t.root && t'.cap == t.cap
    && t.shape.Keys <= t'.shape.Keys
    && (forall p :: p in t.pages ==> p in t'.pages)
    && (forall p :: p in t.pages && p !in t.shape ==> t'.pages[p] == t.pages[p])
    && (forall p :: p in t'.pages && p !in t.pages ==> p in t'.shape)
    && (forall p :: p in t'.shape && p !in t.shape ==> p !in t.pages)
  }

  /** Only the leftmost leaf may be empty. */
  ghost predicate LaterLeavesNonEmpty(t: Tree) {
    forall p :: p in t.shape && p in t.pages && t.pages[p].Leaf? && t.shape[p].lo != KEY_MIN ==> t.pages[p].num > 0
  }

  lemma SameLeavesGrows(t: Tree, t': Tree, t'': Tree)
    requires Grows(t, t') && SameLeaves(t', t'')
    requires forall p :: p in t.shape ==> p in t.pages
    requires forall p :: p in t'.shape ==> p in t'.pages && !t'.pages[p].Catalog?
    ensures Grows(t, t'')
    ensures LaterLeavesNonEmpty(t') ==> LaterLeavesNonEmpty(t'')
  {
    forall p | p in t'.pages
      ensures SamePage(t', t'', p)
    {
    }
  }

  /** No page of t has got another holder. */
  ghost predicate UpsStay(t: Tree, t': Tree) {
    forall p :: p in t.shape && p != t.root ==> p in t'.shape && t'.shape[p].up == t.shape[p].up
  }

  /** The holder of leaf q, if it has one, can take one more separator. */
  ghost predicate HolderHasRoomFor(t: Tree, q: nat)
    requires q in t.shape
  {
    q != t.root ==>
      t.shape[q].up in t.pages && t.pages[t.shape[q].up].Internal? && |t.pages[t.shape[q].up].keys| < INTERNAL_NODE_MAX_KEYS
  }

  /** An INSERT of this key splits no internal page: its leaf has room, or the leaf's holder has. */
  ghost predicate SplitsNoHolder(t: Tree, key: Key)
    requires WellFormed(t)
  {
    PageFacts(t, 0, t.root);
    var leaf := LeafFor(t, 0, t.root, key);
    t.pages[leaf].num < t.cap || HolderHasRoomFor(t, leaf)
  }

  // The cells of a full leaf with one more put in

  function PutCell(cells: seq<Cell>, i: nat, c: Cell): seq<Cell>
    requires i <= |cells|
  {
    cells[..i] + [c] + cells[i..]
  }

  lemma PutSorted(cells: seq<Cell>, i: nat, c: Cell)
    requires SortedCells(cells) && IsCellBound(cells, c.key, i)
    requires forall d :: d in cells ==> d.key != c.key
    ensures SortedCells(PutCell(cells, i, c))
  {
    var put := PutCell(cells, i, c);
    forall x, y | 0 <= x < y < |put|
      ensures put[x].key < put[y].key
    {
      if x == i { assert cells[y - 1] in cells; }
      if y == i { assert cells[x] in cells; }
    }
  }

  lemma PutMembers(cells: seq<Cell>, i: nat, c: Cell)
    requires i <= |cells|
    ensures forall d :: d in PutCell(cells, i, c) <==> d in cells || d == c
  {
    assert cells == cells[..i] + cells[i..];
  }

  /** Both halves of a split leaf keep the leaf invariant, and the promoted key is strictly inside. */
  lemma LeafHalvesOK(temp: seq<Cell>, s: Span, cap: nat, mid: nat, parent: nat, next: nat, next': nat, up: nat)
    requires SortedCells(temp) && |temp| == cap + 1 && 2 <= cap && mid == (cap + 1) / 2 && s.level == 0
    requires forall i :: 0 <= i < |temp| ==> s.lo <= temp[i].key < s.hi
    ensures s.lo < temp[mid].key < s.hi
    ensures LeafOK(Leaf(false, parent, next, mid, temp[..mid]), Span(s.lo, temp[mid].key, 0, up), cap)
    ensures LeafOK(Leaf(false, parent, next', cap + 1 - mid, temp[mid..]), Span(temp[mid].key, s.hi, 0, up), cap)
  {
    assert temp[0].key < temp[mid].key;
    var left, right := Leaf(false, parent, next, mid, temp[..mid]), Leaf(false, parent, next', cap + 1 - mid, temp[mid..]);
    assert Cells(left) == temp[..mid];
    assert Cells(right) == temp[mid..];
  }

  lemma SplitCells(temp: seq<Cell>, mid: nat)
    requires mid <= |temp|
    ensures forall c :: c in temp <==> c in temp[..mid] || c in temp[mid..]
  {
    assert temp == temp[..mid] + temp[mid..];
  }

  lemma LeafSplitCells(t: Tree, q: nat, r: nat, j: nat, m: Key, left: Page, right: Page, c: Cell)
    requires WellFormed(t) && q in t.shape && q != t.root && PageOK(t, 0, q) && t.pages[q].Leaf?
    requires r !in t.shape && r !in t.pages
    requires t.shape[q].up in t.shape && PageOK(t, 0, t.shape[q].up) && t.pages[t.shape[q].up].Internal?
    requires j < |t.pages[t.shape[q].up].kids|
    requires forall d :: d in Cells(left) || d in Cells(right) <==> d in Cells(t.pages[q]) || d == c
    ensures CellSet(LeafSplit(t, q, r, j, m, left, right)) == CellSet(t) + {c}
  {
    var t' := LeafSplit(t, q, r, j, m, left, right);
    forall d
      ensures d in CellSet(t') <==> d in CellSet(t) || d == c
    {
      LeafSplitCell(t, q, r, j, m, left, right, c, d);
    }
  }

  lemma LeafSplitCell(t: Tree, q: nat, r: nat, j: nat, m: Key, left: Page, right: Page, c: Cell, d: Cell)
    requires WellFormed(t) && q in t.shape && q != t.root && PageOK(t, 0, q) && t.pages[q].Leaf?
    requires r !in t.shape && r !in t.pages
    requires t.shape[q].up in t.shape && PageOK(t, 0, t.shape[q].up) && t.pages[t.shape[q].up].Internal?
    requires j < |t.pages[t.shape[q].up].kids|
    requires d in Cells(left) || d in Cells(right) <==> d in Cells(t.pages[q]) || d == c
    ensures d in CellSet(LeafSplit(t, q, r, j, m, left, right)) <==> d in CellSet(t) || d == c
  {
    var t' := LeafSplit(t, q, r, j, m, left, right);
    if d in CellSet(t') {
      var p :| p in t'.shape && p in t'.pages && d in Cells(t'.pages[p]);
      if p != q && p != r {
        PageFacts(t, 0, p);
        assert d in Cells(t.pages[p]);
      }
    }
    if d in CellSet(t) || d == c {
      LeafSplitCellStays(t, q, r, j, m, left, right, c, d);
    }
  }

  lemma LeafSplitCellStays(t: Tree, q: nat, r: nat, j: nat, m: Key, left: Page, right: Page, c: Cell, d: Cell)
    requires WellFormed(t) && q in t.shape && q != t.root && PageOK(t, 0, q) && t.pages[q].Leaf?
    requires r !in t.shape && r !in t.pages
    requires t.shape[q].up in t.shape && PageOK(t, 0, t.shape[q].up) && t.pages[t.shape[q].up].Internal?
    requires j < |t.pages[t.shape[q].up].kids|
    requires d in Cells(left) || d in Cells(right) <==> d in Cells(t.pages[q]) || d == c
    requires d in CellSet(t) || d == c
    ensures d in CellSet(LeafSplit(t, q, r, j, m, left, right))
  {
    var t' := LeafSplit(t, q, r, j, m, left, right);
    assert t'.pages[q] == left && t'.pages[r] == right;
    if d !in Cells(left) && d !in Cells(right) {
      var p :| p in t.shape && p in t.pages && d in Cells(t.pages[p]);
      assert d in Cells(t'.pages[p]);
    }
  }

  lemma LeafRootSplitCells(t: Tree, a: nat, b: nat, m: Key, left: Page, right: Page, c: Cell)
    requires WellFormed(t) && PageOK(t, 0, t.root) && t.pages[t.root].Leaf?
    requires a != b && a != t.root && b != t.root
    requires forall d :: d in Cells(left) || d in Cells(right) <==> d in Cells(t.pages[t.root]) || d == c
    ensures CellSet(LeafRootSplit(t, a, b, m, left, right)) == CellSet(t) + {c}
  {
    var t' := LeafRootSplit(t, a, b, m, left, right);
    forall p | p in t.shape ensures p == t.root { LoneLeaf(t, p); }
    assert forall p :: p in t'.shape ==> p == t.root || p == a || p == b;
    forall d
      ensures d in CellSet(t') <==> d in CellSet(t) || d == c
    {
      if d in Cells(left) { assert d in Cells(t'.pages[a]); }
      if d in Cells(right) { assert d in Cells(t'.pages[b]); }
    }
  }

  // The in-place insert

  /** What a finished insert of cell c promises about tree t' and the pager. */
  ghost predicate Inserted(t: Tree, t': Tree, c: Cell) {
    && WellFormed(t') && Parented(t') && Grows(t, t')
    && CellSet(t') == CellSet(t) + {c}
    && AllSlots(t') <= AllSlots(t) + {c}
    && (LaterLeavesNonEmpty(t) ==> LaterLeavesNonEmpty(t'))
  }

  ghost function WithLeaf(t: Tree, q: nat, n: Page): Tree { t.(pages := t.pages[q := n]) }

  lemma LeafInsertKeepsTree(t: Tree, q: nat, i: nat, c: Cell)
    requires WellFormed(t) && Parented(t) && q in t.shape && PageOK(t, 0, q) && t.pages[q].Leaf?
    requires t.pages[q].num < t.cap && t.shape[q].lo <= c.key < t.shape[q].hi
    requires IsCellBound(Cells(t.pages[q]), c.key, i)
    requires forall d :: d in Cells(t.pages[q]) ==> d.key != c.key
    ensures var t' := WithLeaf(t, q, InsertSlot(t.pages[q], i, c));
            Inserted(t, t', c)
  {
    var n := InsertSlot(t.pages[q], i, c);
    var t' := WithLeaf(t, q, n);
    PutSorted(Cells(t.pages[q]), i, c);
    PutMembers(Cells(t.pages[q]), i, c);
    assert Cells(n) == PutCell(Cells(t.pages[q]), i, c);
    InsertedLeafOK(t.pages[q], t.shape[q], t.cap, i, c);
    InsertedSlots(t.pages[q], i, c);
    LeafRewriteKeepsTree(t, q, n);
    LeafRewriteCells(t, q, n, c);
  }

  lemma InsertedSlots(page: Page, i: nat, c: Cell)
    requires page.Leaf? && i <= page.num <= |page.slots|
    ensures forall d :: d in InsertSlot(page, i, c).slots ==> d in page.slots || d == c
  {
  }

  lemma InsertedLeafOK(page: Page, s: Span, cap: nat, i: nat, c: Cell)
    requires page.Leaf? && LeafOK(page, s, cap) && page.num < cap && s.lo <= c.key < s.hi && i <= page.num
    requires SortedCells(PutCell(Cells(page), i, c))
    ensures LeafOK(InsertSlot(page, i, c), s, cap)
  {
    var n := InsertSlot(page, i, c);
    assert Cells(n) == PutCell(Cells(page), i, c);
    forall x | 0 <= x < n.num
      ensures s.lo <= n.slots[x].key < s.hi
    {
      assert n.slots[x] == Cells(n)[x];
      if x < i { assert Cells(n)[x] == page.slots[x]; }
      if x > i { assert Cells(n)[x] == page.slots[x - 1]; }
    }
  }

  lemma LeafRewriteCells(t: Tree, q: nat, n: Page, c: Cell)
    requires q in t.shape && q in t.pages
    requires forall d :: d in Cells(n) <==> d in Cells(t.pages[q]) || d == c
    requires t.pages[q].Leaf? && n.Leaf? && forall d :: d in n.slots ==> d in t.pages[q].slots || d == c
    ensures CellSet(WithLeaf(t, q, n)) == CellSet(t) + {c}
    ensures AllSlots(WithLeaf(t, q, n)) <= AllSlots(t) + {c}
  {
    var t' := WithLeaf(t, q, n);
    forall d
      ensures d in CellSet(t') <==> d in CellSet(t) || d == c
    {
      if d in Cells(n) { assert d in Cells(t'.pages[q]); }
      if d in CellSet(t) {
        var p :| p in t.shape && p in t.pages && d in Cells(t.pages[p]);
        assert d in Cells(t'.pages[p]);
      }
    }
  }

  /** Any rewrite of one leaf's cells that keeps the leaf's own invariant keeps the tree. */
  lemma LeafRewriteKeepsTree(t: Tree, q: nat, n: Page)
    requires WellFormed(t) && q in t.shape && PageOK(t, 0, q) && t.pages[q].Leaf?
    requires n.Leaf? && n == t.pages[q].(num := n.num, slots := n.slots)
    requires LeafOK(n, t.shape[q], t.cap)
    ensures WellFormed(WithLeaf(t, q, n))
    ensures Parented(t) ==> Parented(WithLeaf(t, q, n))
  {
    var t' := WithLeaf(t, q, n);
    forall p | p in t'.shape
      ensures PageOK(t', 0, p)
    {
      PageFacts(t, 0, p);
    }
    if Parented(t) {
      forall p | p in t'.shape && p in t'.pages
        ensures ParentOK(t', p)
      {
        assert ParentOK(t, p);
      }
    }
  }

  // The methods

  /** `leaf_node_insert`: LEAF_FULL_ERROR is reported as `full`. */
  method LeafNodeInsert(pager: Pager, q: nat, i: nat, c: Cell, cap: nat) returns (full: bool)
    requires pager.Valid() && q in pager.cache && pager.cache[q].Leaf?
    requires i <= pager.cache[q].num <= |pager.cache[q].slots|
    modifies pager`cache, pager`dirty
    ensures old(pager.dirty) <= pager.dirty
    ensures pager.Valid()
    ensures full <==> old(pager.cache[q]).num >= cap
    ensures full ==> pager.cache == old(pager.cache) && pager.dirty == old(pager.dirty) && pager.Heap() == old(pager.Heap())
    ensures !full ==> pager.Heap() == old(pager.Heap())[q := InsertSlot(old(pager.cache[q]), i, c)]
    ensures old(pager.Recoverable()) ==> pager.Recoverable()
  {
    full := pager.cache[q].num >= cap;
    if !full {
      pager.Write(q, InsertSlot(pager.cache[q], i, c));
      pager.MarkDirty(q);
    }
  }

  /** The shifting loop that makes room for the new entry in the temporary buffer. */
  method InsertEntry(cells: seq<Cell>, c: Cell) returns (temp: seq<Cell>, ghost i: nat)
    requires SortedCells(cells) && forall d :: d in cells ==> d.key != c.key
    ensures IsCellBound(cells, c.key, i) && temp == PutCell(cells, i, c)
  {
    var k: nat := |cells|;
    temp := cells + [c];
    while k > 0 && temp[k - 1].key > c.key
      invariant 0 <= k <= |cells| && |temp| == |cells| + 1
      invariant forall j :: 0 <= j < k ==> temp[j] == cells[j]
      invariant forall j :: k < j < |temp| ==> temp[j] == cells[j - 1]
      invariant forall j :: k <= j < |cells| ==> c.key < cells[j].key
    {
      temp := temp[k := temp[k - 1]];
      k := k - 1;
    }
    temp := temp[k := c];
    i := k;
    assert k > 0 ==> cells[k - 1] in cells && cells[k - 1].key < c.key;
    assert temp == PutCell(cells, k, c);
  }

  /** The two halves of a split leaf, as page images. */
  function LowerLeaf(temp: seq<Cell>, mid: nat, parent: nat, next: nat): Page
    requires mid <= |temp|
  {
    Leaf(false, parent, next, mid, temp[..mid])
  }

  function UpperLeaf(temp: seq<Cell>, mid: nat, parent: nat, next: nat): Page
    requires mid <= |temp|
  {
    Leaf(false, parent, next, |temp| - mid, temp[mid..])
  }

  /** The buffer `temp` holds the cells of full leaf q and the new cell c, in key order. */
  ghost predicate TempReady(t: Tree, q: nat, c: Cell, temp: seq<Cell>)
  {
    && WellFormed(t) && Parented(t) && q in t.shape && PageOK(t, 0, q) && t.pages[q].Leaf?
    && t.pages[q].num == t.cap && |temp| == t.cap + 1 && SortedCells(temp)
    && (forall i :: 0 <= i < |temp| ==> t.shape[q].lo <= temp[i].key < t.shape[q].hi)
    && (forall d :: d in temp <==> d in Cells(t.pages[q]) || d == c)
  }

  lemma RootLeafInserted(t: Tree, a: nat, b: nat, c: Cell, temp: seq<Cell>, mid: nat)
    requires TempReady(t, t.root, c, temp) && mid == (t.cap + 1) / 2
    requires 0 < a < TABLES_MAX_PAGES && a !in t.pages && 0 < b < TABLES_MAX_PAGES && b !in t.pages && a != b
    ensures Inserted(t, LeafRootSplit(t, a, b, temp[mid].key, LowerLeaf(temp, mid, t.root, b), UpperLeaf(temp, mid, t.root, 0)), c)
  {
    var left, right := LowerLeaf(temp, mid, t.root, b), UpperLeaf(temp, mid, t.root, 0);
    if a in t.shape { PageFacts(t, 0, a); }
    if b in t.shape { PageFacts(t, 0, b); }
    LeafHalvesOK(temp, t.shape[t.root], t.cap, mid, t.root, b, 0, t.root);
    LeafRootSplitKeepsTree(t, a, b, temp[mid].key, left, right);
    SplitCells(temp, mid);
    assert Cells(left) == temp[..mid] && Cells(right) == temp[mid..];
    CellsAreSlots(t.pages[t.root]);
    RootSplitInserted(t, a, b, temp[mid].key, left, right, c);
  }

  lemma RootSplitInserted(t: Tree, a: nat, b: nat, m: Key, left: Page, right: Page, c: Cell)
    requires WellFormed(t) && Parented(t) && PageOK(t, 0, t.root) && t.pages[t.root].Leaf? && a != b
    requires a !in t.shape && a !in t.pages && b !in t.shape && b !in t.pages
    requires left.Leaf? && left.parent == t.root && right.Leaf? && right.parent == t.root && right.num > 0
    requires forall d :: d in Cells(left) || d in Cells(right) <==> d in Cells(t.pages[t.root]) || d == c
    requires forall d :: d in left.slots || d in right.slots ==> d in t.pages[t.root].slots || d == c
    requires WellFormed(LeafRootSplit(t, a, b, m, left, right))
    ensures Inserted(t, LeafRootSplit(t, a, b, m, left, right), c)
  {
    LeafRootSplitCells(t, a, b, m, left, right, c);
    forall p | p in t.shape ensures p == t.root { LoneLeaf(t, p); }
    RootSplitSlots(t, a, b, m, left, right, c);
  }

  lemma CellsAreSlots(n: Page)
    requires n.Leaf?
    ensures forall c :: c in Cells(n) ==> c in n.slots
  {
  }

  lemma RootSplitSlots(t: Tree, a: nat, b: nat, m: Key, left: Page, right: Page, c: Cell)
    requires WellFormed(t) && PageOK(t, 0, t.root) && t.pages[t.root].Leaf? && (forall p :: p in t.shape ==> p == t.root)
    requires left.Leaf? && right.Leaf? && a != b && a != t.root && b != t.root
    requires forall d :: d in left.slots || d in right.slots ==> d in t.pages[t.root].slots || d == c
    ensures AllSlots(LeafRootSplit(t, a, b, m, left, right)) <= AllSlots(t) + {c}
  {
  }

  lemma LeafSplitSlots(t: Tree, q: nat, r: nat, j: nat, m: Key, left: Page, right: Page, c: Cell)
    requires WellFormed(t) && q in t.shape && q != t.root && PageOK(t, 0, q) && t.pages[q].Leaf?
    requires r !in t.shape && r !in t.pages
    requires t.shape[q].up in t.shape && PageOK(t, 0, t.shape[q].up) && t.pages[t.shape[q].up].Internal?
    requires j < |t.pages[t.shape[q].up].kids|
    requires left.Leaf? && right.Leaf?
    requires forall d :: d in left.slots || d in right.slots ==> d in t.pages[q].slots || d == c
    ensures AllSlots(LeafSplit(t, q, r, j, m, left, right)) <= AllSlots(t) + {c}
  {
    var t' := LeafSplit(t, q, r, j, m, left, right);
    forall d | d in AllSlots(t')
      ensures d in AllSlots(t) + {c}
    {
      var p :| p in t'.shape && p in t'.pages && t'.pages[p].Leaf? && d in t'.pages[p].slots;
      if p != q && p != r {
        assert p in t.shape && t.pages[p] == t'.pages[p];
      }
    }
  }

  lemma LeafInserted(t: Tree, q: nat, r: nat, j: nat, c: Cell, temp: seq<Cell>, mid: nat)
    requires TempReady(t, q, c, temp) && mid == (t.cap + 1) / 2 && q != t.root
    requires 0 < r < TABLES_MAX_PAGES && r !in t.pages
    requires t.shape[q].up in t.shape && PageOK(t, 0, t.shape[q].up) && t.pages[t.shape[q].up].Internal?
    requires IsLowerBound(t.pages[t.shape[q].up].keys, temp[mid].key, j)
    ensures j < |t.pages[t.shape[q].up].kids| && t.pages[t.shape[q].up].kids[j] == q
    ensures var t' := LeafSplit(t, q, r, j, temp[mid].key, LowerLeaf(temp, mid, t.pages[q].parent, r),
                                UpperLeaf(temp, mid, t.pages[q].parent, t.pages[q].next));
            && Overfull(t', t.shape[q].up) && Parented(t') && Grows(t, t') && CellSet(t') == CellSet(t) + {c}
            && AllSlots(t') <= AllSlots(t) + {c}
            && (LaterLeavesNonEmpty(t) ==> LaterLeavesNonEmpty(t'))
  {
    var parent, next := t.pages[q].parent, t.pages[q].next;
    var left, right := LowerLeaf(temp, mid, parent, r), UpperLeaf(temp, mid, parent, next);
    if r in t.shape { PageFacts(t, 0, r); }
    LeafHalvesOK(temp, t.shape[q], t.cap, mid, parent, r, next, t.shape[q].up);
    SlotAgreement(t, 0, q, temp[mid].key, j);
    LeafSplitKeepsTree(t, q, r, j, temp[mid].key, left, right);
    LeafSplitParented(t, q, r, j, temp[mid].key, left, right);
    LeafSplitGrows(t, q, r, j, temp[mid].key, left, right);
    SplitCells(temp, mid);
    assert Cells(left) == temp[..mid] && Cells(right) == temp[mid..];
    LeafSplitCells(t, q, r, j, temp[mid].key, left, right, c);
    CellsAreSlots(t.pages[q]);
    LeafSplitSlots(t, q, r, j, temp[mid].key, left, right, c);
  }

  lemma LeafSplitGrows(t: Tree, q: nat, r: nat, j: nat, m: Key, left: Page, right: Page)
    requires WellFormed(t) && q in t.shape && q != t.root && PageOK(t, 0, q) && t.pages[q].Leaf?
    requires r !in t.shape && r !in t.pages
    requires t.shape[q].up in t.shape && PageOK(t, 0, t.shape[q].up) && t.pages[t.shape[q].up].Internal?
    requires j < |t.pages[t.shape[q].up].kids|
    requires left.Leaf? && left.num > 0 && right.Leaf? && right.num > 0
    ensures Grows(t, LeafSplit(t, q, r, j, m, left, right))
    ensures LaterLeavesNonEmpty(t) ==> LaterLeavesNonEmpty(LeafSplit(t, q, r, j, m, left, right))
  {
  }

  lemma LoneLeafUps(t: Tree)
    requires WellFormed(t) && PageOK(t, 0, t.root) && t.pages[t.root].Leaf?
    ensures forall p :: p in t.shape ==> p == t.root
  {
    forall p | p in t.shape ensures p == t.root { LoneLeaf(t, p); }
  }

  /** `split_leaf_node` on the root leaf. */
  method SplitRootLeaf(pager: Pager, q: nat, temp: seq<Cell>, cap: nat, c: Cell, ghost t: Tree) returns (ok: bool, ghost t': Tree)
    requires pager.Valid() && q in pager.cache && q == t.root && cap == t.cap && t.pages == pager.Heap()
    requires TempReady(t, q, c, temp)
    modifies pager`cache, pager`dirty, pager`numPages
    ensures old(pager.dirty) <= pager.dirty
    ensures pager.Valid()
    ensures ok <==> old(pager.numPages) + 2 <= TABLES_MAX_PAGES
    ensures ok ==> pager.numPages == old(pager.numPages) + 2 && t'.pages == pager.Heap() && Inserted(t, t', c) && UpsStay(t, t')
    ensures !ok ==> KeptOutside(old(pager.Heap()), pager.Heap(), {})
    ensures !ok && old(pager.numPages) >= TABLES_MAX_PAGES ==> pager.Heap() == old(pager.Heap())
    ensures ok && old(pager.Recoverable()) ==> pager.Recoverable()
  {
    t' := t;
    var mid := (cap + 1) / 2;
    var left, right;
    ok, left, right := WriteRootLeaves(pager, q, temp, mid);
    if ok {
      RootLeafInserted(t, left, right, c, temp, mid);
      LoneLeafUps(t);
      t' := LeafRootSplit(t, left, right, temp[mid].key, LowerLeaf(temp, mid, q, right), UpperLeaf(temp, mid, q, 0));
    }
  }

  method WriteRootLeaves(pager: Pager, q: nat, temp: seq<Cell>, mid: nat) returns (ok: bool, left: nat, right: nat)
    requires pager.Valid() && q in pager.cache && pager.cache[q].Leaf? && mid < |temp|
    modifies pager`cache, pager`dirty, pager`numPages
    ensures old(pager.dirty) <= pager.dirty
    ensures pager.Valid()
    ensures ok <==> old(pager.numPages) + 2 <= TABLES_MAX_PAGES
    ensures ok ==> right == old(pager.numPages) && left == right + 1 && pager.numPages == left + 1
    ensures ok ==> left !in old(pager.Heap()) && right !in old(pager.Heap())
    ensures ok ==> pager.Heap() == old(pager.Heap())
        [right := UpperLeaf(temp, mid, q, 0)][left := LowerLeaf(temp, mid, q, right)]
        [q := Internal(true, old(pager.cache[q]).parent, [temp[mid].key], [left, right])]
    ensures !ok ==> KeptOutside(old(pager.Heap()), pager.Heap(), {})
    ensures !ok && old(pager.numPages) >= TABLES_MAX_PAGES ==> pager.Heap() == old(pager.Heap())
    ensures ok && old(pager.Recoverable()) ==> pager.Recoverable()
  {
    var parent := pager.cache[q].parent;
    ok, right := WriteFresh(pager, UpperLeaf(temp, mid, q, 0));
    left := right;
    if ok {
      ok, left := WriteFresh(pager, LowerLeaf(temp, mid, q, right));
    }
    if ok {
      pager.Write(q, Internal(true, parent, [temp[mid].key], [left, right]));
      pager.MarkDirty(q);
    }
  }

  /** A new page, filled and marked dirty. */
  method WriteFresh(pager: Pager, page: Page) returns (ok: bool, p: nat)
    requires pager.Valid()
    modifies pager`cache, pager`dirty, pager`numPages
    ensures old(pager.dirty) <= pager.dirty
    ensures pager.Valid()
    ensures p == old(pager.numPages) && p !in old(pager.Heap()) && (ok <==> p < TABLES_MAX_PAGES)
    ensures pager.numPages == if ok then p + 1 else p
    ensures pager.Heap() == if ok then old(pager.Heap())[p := page] else old(pager.Heap())
    ensures pager.cache == if ok then old(pager.cache)[p := page] else old(pager.cache)
    ensures old(pager.Recoverable()) ==> pager.Recoverable()
  {
    ok, p := pager.GetFreshPage();
    if ok {
      pager.Write(p, page);
      pager.MarkDirty(p);
    }
  }

  method WriteLeafHalves(pager: Pager, q: nat, temp: seq<Cell>, mid: nat) returns (ok: bool, r: nat)
    requires pager.Valid() && q in pager.cache && pager.cache[q].Leaf? && mid < |temp|
    modifies pager`cache, pager`dirty, pager`numPages
    ensures old(pager.dirty) <= pager.dirty
    ensures pager.Valid()
    ensures r == old(pager.numPages) && r !in old(pager.Heap()) && (ok <==> r < TABLES_MAX_PAGES)
    ensures ok ==> pager.numPages == r + 1
    ensures ok ==> pager.Heap() == old(pager.Heap())
        [r := UpperLeaf(temp, mid, old(pager.cache[q]).parent, old(pager.cache[q]).next)]
        [q := LowerLeaf(temp, mid, old(pager.cache[q]).parent, r)]
    ensures !ok ==> pager.Heap() == old(pager.Heap())
    ensures ok && old(pager.Recoverable()) ==> pager.Recoverable()
  {
    var old_page := pager.cache[q];
    ok, r := WriteFresh(pager, UpperLeaf(temp, mid, old_page.parent, old_page.next));
    if ok {
      pager.Write(q, LowerLeaf(temp, mid, old_page.parent, r));
      pager.MarkDirty(q);
    }
  }

  lemma LeafRippleStable(t: Tree, q: nat, r: nat, j: nat, m: Key, left: Page, right: Page)
    requires WellFormed(t) && q in t.shape && q != t.root && PageOK(t, 0, q) && t.pages[q].Leaf?
    requires r !in t.shape && r !in t.pages
    requires t.shape[q].up in t.shape && PageOK(t, 0, t.shape[q].up) && t.pages[t.shape[q].up].Internal?
    requires j < |t.pages[t.shape[q].up].kids|
    requires Overfull(LeafSplit(t, q, r, j, m, left, right), t.shape[q].up)
    ensures t.shape[q].up in LeafSplit(t, q, r, j, m, left, right).shape
    ensures SplitPages(LeafSplit(t, q, r, j, m, left, right), t.shape[q].up, t.shape[q].up) == SplitPages(t, 0, t.shape[q].up)
  {
    var t', u := LeafSplit(t, q, r, j, m, left, right), t.shape[q].up;
    HolderLevel(t, 0, q);
    forall p | p in t.shape && t.shape[p].level > t.shape[u].level
      ensures p in t.pages && p in t'.shape && t'.shape[p] == t.shape[p] && p in t'.pages && t'.pages[p] == t.pages[p]
    {
      PageFacts(t, 0, p);
    }
    SplitPagesStable(t, 0, t', u, u);
  }

  /** The tree that waits for the holder of split leaf q to take the new pair in. */
  ghost function LeafPromotion(t: Tree, q: nat, r: nat, i: nat, temp: seq<Cell>, mid: nat): Tree
    requires q in t.shape && q in t.pages && t.pages[q].Leaf? && t.shape[q].up in t.pages
    requires t.pages[t.shape[q].up].Internal? && mid < |temp|
    requires i <= |t.pages[t.shape[q].up].keys| && |t.pages[t.shape[q].up].kids| == |t.pages[t.shape[q].up].keys| + 1
  {
    LeafSplit(t, q, r, i, temp[mid].key, LowerLeaf(temp, mid, t.pages[q].parent, r),
              UpperLeaf(temp, mid, t.pages[q].parent, t.pages[q].next))
  }

  lemma LeafPromotionUps(t: Tree, q: nat, r: nat, i: nat, temp: seq<Cell>, mid: nat)
    requires q in t.shape && q in t.pages && t.pages[q].Leaf? && t.shape[q].up in t.pages
    requires t.pages[t.shape[q].up].Internal? && mid < |temp| && r !in t.shape
    requires i <= |t.pages[t.shape[q].up].keys| && |t.pages[t.shape[q].up].kids| == |t.pages[t.shape[q].up].keys| + 1
    ensures UpsStay(t, LeafPromotion(t, q, r, i, temp, mid))
    ensures LeafPromotion(t, q, r, i, temp, mid).shape.Keys == t.shape.Keys + {r}
  {
  }

  lemma LeafRippleStep(t: Tree, q: nat, r: nat, h: Heap, i: nat, c: Cell, temp: seq<Cell>, mid: nat)
    requires TempReady(t, q, c, temp) && mid == (t.cap + 1) / 2 && q != t.root
    requires 0 < r < TABLES_MAX_PAGES && r !in t.pages
    requires h == t.pages[r := UpperLeaf(temp, mid, t.pages[q].parent, t.pages[q].next)][q := LowerLeaf(temp, mid, t.pages[q].parent, r)]
    requires t.shape[q].up in t.shape && PageOK(t, 0, t.shape[q].up) && t.pages[t.shape[q].up].Internal?
    requires IsLowerBound(t.pages[t.shape[q].up].keys, temp[mid].key, i)
    ensures i < |t.pages[t.shape[q].up].kids| && t.pages[t.shape[q].up].kids[i] == q
    ensures t.shape[q].up in h && h[t.shape[q].up] == t.pages[t.shape[q].up]
    ensures var t2 := LeafPromotion(t, q, r, i, temp, mid); var u := t.shape[q].up;
            && LeafRippled(t, t2, u, r, c)
            && t2.pages == h[u := InsertKid(h[u], i, temp[mid].key, q, r)]
            && SplitPages(t2, u, u) == SplitPages(t, 0, u)
  {
    LeafInserted(t, q, r, i, c, temp, mid);
    HolderLevel(t, 0, q);
    if r in t.shape { PageFacts(t, 0, r); }
    LeafPromotionUps(t, q, r, i, temp, mid);
    LeafRippleStable(t, q, r, i, temp[mid].key, LowerLeaf(temp, mid, t.pages[q].parent, r),
                     UpperLeaf(temp, mid, t.pages[q].parent, t.pages[q].next));
  }

  /** The tree t2, which waits for its page u to take in a key, is t with c stored. */
  ghost predicate LeafRippled(t: Tree, t2: Tree, u: nat, r: nat, c: Cell) {
    && Overfull(t2, u) && u in t2.shape && Parented(t2) && Grows(t, t2) && CellSet(t2) == CellSet(t) + {c}
    && AllSlots(t2) <= AllSlots(t) + {c}
    && (LaterLeavesNonEmpty(t) ==> LaterLeavesNonEmpty(t2))
    && UpsStay(t, t2) && t2.shape.Keys == t.shape.Keys + {r}
  }

  /** How the ripple from a leaf ends: with c stored, or with none but the tree's own pages changed. */
  lemma LeafRippleDone(t: Tree, q: nat, r: nat, left: Page, right: Page, t2: Tree, c: Cell, h1: Heap, ok: bool, t': Tree, h2: Heap)
    requires WellFormed(t) && q in t.shape && r !in t.pages && LeafRippled(t, t2, t.shape[q].up, r, c)
    requires h1 == t.pages[r := right][q := left]
    requires ok ==> WellFormed(t') && Parented(t') && SameLeaves(t2, t')
    requires !ok ==> KeptOutside(h1, h2, t2.shape.Keys)
    ensures ok ==> Inserted(t, t', c) && (t' == t2 ==> UpsStay(t, t'))
    ensures !ok ==> KeptOutside(t.pages, h2, t.shape.Keys)
  {
    if ok {
      RippleInserted(t, t2, t.shape[q].up, t', c);
    }
  }

  /** Hand the separator of a split leaf to its holder. */
  method PromoteLeafKey(pager: Pager, u: nat, m: Key, q: nat, r: nat, ghost temp: seq<Cell>, ghost mid: nat, ghost c: Cell, ghost t: Tree)
    returns (ok: bool, ghost t': Tree)
    requires pager.Valid() && 0 < r < TABLES_MAX_PAGES && r !in t.pages && pager.numPages == r + 1
    requires TempReady(t, q, c, temp) && mid == (t.cap + 1) / 2 && q != t.root && m == temp[mid].key
    requires u == t.shape[q].up
    requires pager.Heap() == t.pages[r := UpperLeaf(temp, mid, t.pages[q].parent, t.pages[q].next)]
                                    [q := LowerLeaf(temp, mid, t.pages[q].parent, r)]
    modifies pager`cache, pager`dirty, pager`numPages
    ensures old(pager.dirty) <= pager.dirty
    ensures pager.Valid()
    ensures ok <==> r + SplitPages(t, 0, q) <= TABLES_MAX_PAGES
    ensures ok ==> pager.numPages == r + SplitPages(t, 0, q) && t'.pages == pager.Heap() && Inserted(t, t', c)
    ensures ok && HolderHasRoomFor(t, q) ==> UpsStay(t, t')
    ensures !ok ==> KeptOutside(t.pages, pager.Heap(), t.shape.Keys)
    ensures ok && old(pager.Recoverable()) ==> pager.Recoverable()
  {
    t' := t;
    HolderLevel(t, 0, q);
    var holder := pager.Fetch(u);
    var i := InternalNodeFind(holder, m);
    ghost var h: Heap := pager.Heap();
    LeafRippleStep(t, q, r, h, i, c, temp, mid);
    ghost var t2 := LeafPromotion(t, q, r, i, temp, mid);
    ok, t' := TakeSeparator(pager, u, m, q, r, i, t2);
    LeafRippleDone(t, q, r, LowerLeaf(temp, mid, t.pages[q].parent, r), UpperLeaf(temp, mid, t.pages[q].parent, t.pages[q].next),
                   t2, c, h, ok, t', pager.Heap());
  }

  lemma RippleInserted(t: Tree, t2: Tree, u: nat, t': Tree, c: Cell)
    requires WellFormed(t) && Overfull(t2, u) && WellFormed(t') && Parented(t')
    requires Grows(t, t2) && SameLeaves(t2, t') && CellSet(t2) == CellSet(t) + {c} && AllSlots(t2) <= AllSlots(t) + {c}
    requires LaterLeavesNonEmpty(t) ==> LaterLeavesNonEmpty(t2)
    ensures Inserted(t, t', c)
  {
    forall p | p in t.shape ensures p in t.pages { PageFacts(t, 0, p); }
    forall p | p in t2.shape ensures p in t2.pages && !t2.pages[p].Catalog? { PageFacts(t2, u, p); }
    SameLeavesGrows(t, t2, t');
    SameLeavesSameCells(t2, t');
  }

  /** `split_leaf_node`. */
  method SplitLeafNode(pager: Pager, q: nat, c: Cell, cap: nat, ghost t: Tree) returns (ok: bool, ghost t': Tree)
    requires pager.Valid() && q in pager.cache && t.pages == pager.Heap() && cap == t.cap
    requires WellFormed(t) && Parented(t) && q in t.shape && PageOK(t, 0, q) && t.pages[q].Leaf?
    requires t.pages[q].num == cap && t.shape[q].lo <= c.key < t.shape[q].hi
    requires forall d :: d in Cells(t.pages[q]) ==> d.key != c.key
    modifies pager`cache, pager`dirty, pager`numPages
    ensures old(pager.dirty) <= pager.dirty
    ensures pager.Valid()
    ensures ok <==> old(pager.numPages) + SplitPages(t, 0, q) <= TABLES_MAX_PAGES
    ensures ok ==> pager.numPages == old(pager.numPages) + SplitPages(t, 0, q)
    ensures ok ==> t'.pages == pager.Heap() && Inserted(t, t', c)
    ensures ok && HolderHasRoomFor(t, q) ==> UpsStay(t, t')
    ensures !ok ==> KeptOutside(old(pager.Heap()), pager.Heap(), t.shape.Keys)
    ensures !ok && old(pager.numPages) >= TABLES_MAX_PAGES ==> pager.Heap() == old(pager.Heap())
    ensures ok && old(pager.Recoverable()) ==> pager.Recoverable()
  {
    t' := t;
    var old_page := pager.cache[q];
    var temp, i := InsertEntry(Cells(old_page), c);
    PutSorted(Cells(old_page), i, c);
    PutMembers(Cells(old_page), i, c);
    assert TempReady(t, q, c, temp) by { TempFacts(t, q, c, temp); }
    if old_page.isRoot {
      ok, t' := SplitRootLeaf(pager, q, temp, cap, c, t);
    } else {
      assert ParentOK(t, q);
      HolderLevel(t, 0, q);
      var mid := (cap + 1) / 2;
      var r;
      ok, r := WriteLeafHalves(pager, q, temp, mid);
      if ok {
        ok, t' := PromoteLeafKey(pager, old_page.parent, temp[mid].key, q, r, temp, mid, c, t);
      }
    }
  }

  lemma TempFacts(t: Tree, q: nat, c: Cell, temp: seq<Cell>)
    requires t.root in t.shape && q in t.shape && PageOK(t, 0, q) && t.pages[q].Leaf?
    requires t.shape[q].lo <= c.key < t.shape[q].hi
    requires forall d :: d in temp ==> d in Cells(t.pages[q]) || d == c
    ensures forall i :: 0 <= i < |temp| ==> t.shape[q].lo <= temp[i].key < t.shape[q].hi
  {
    forall i | 0 <= i < |temp|
      ensures t.shape[q].lo <= temp[i].key < t.shape[q].hi
    {
      assert temp[i] in temp;
      if temp[i] != c {
        var x :| 0 <= x < |Cells(t.pages[q])| && Cells(t.pages[q])[x] == temp[i];
        assert t.pages[q].slots[x] == temp[i];
      }
    }
  }

  /** The pages an INSERT of this key allocates. */
  ghost function InsertPages(t: Tree, key: Key): nat
    requires WellFormed(t)
  {
    PageFacts(t, 0, t.root);
    var leaf := LeafFor(t, 0, t.root, key);
    if t.pages[leaf].num < t.cap then 0 else SplitPages(t, 0, leaf)
  }

  lemma InsertPagesBound(t: Tree, key: Key)
    requires WellFormed(t)
    ensures InsertPages(t, key) <= t.shape[t.root].level + 2
  {
    PageFacts(t, 0, t.root);
    var leaf := LeafFor(t, 0, t.root, key);
    SplitPagesBound(t, 0, leaf);
  }

  /** The loop that copies the literals into the row. */
  method BuildRow(values: seq<Literal>) returns (ok: bool, row: Row)
    ensures ok <==> forall i :: 0 <= i < |values| && values[i].StrLit? ==> |values[i].text| <= 255
    ensures ok ==> ValuesFit(values) && row == RowFrom(values)
    ensures ok && NulFreeValues(values) ==> ShowsAll(row, values)
  {
    row := [];
    ok := true;
    var i := 0;
    while i < |values|
      invariant i <= |values| && ValuesFit(values[..i]) && row == RowFrom(values[..i])
    {
      if !TextFits(values[i]) {
        assert values[i].StrLit? && |values[i].text| > 255;
        return false, row;
      }
      assert values[..i + 1] == values[..i] + [values[i]];
      row := row + [FreshValue(values[i])];
      i := i + 1;
    }
    assert values[..i] == values;
    if NulFreeValues(values) {
      RowFromShows(values);
    }
  }

  /** The primary key of the row to be inserted. */
  function NewKey(s: Schema, values: seq<Literal>): Key
    requires SchemaOK(s) && ValuesTyped(s, values)
  {
    assert LiteralHasType(values[s.pk], s.columns[s.pk].kind);
    values[s.pk].integer
  }

  function NewCell(s: Schema, values: seq<Literal>): Cell
    requires SchemaOK(s) && ValuesTyped(s, values) && ValuesFit(values)
  {
    Cell(NewKey(s, values), RowFrom(values))
  }

  /** How `insert_command` ends: wrong count or type, duplicate key, text too long, out of page
      numbers, or done. The first, third and fourth are all -1 in the source. */
  datatype InsertOutcome = BadValues | Duplicate | TextTooLong | OutOfPages | Stored

  ghost function ExpectedOutcome(t: Tree, s: Schema, values: seq<Literal>, numPages: nat): InsertOutcome
    requires WellFormed(t) && SchemaOK(s)
  {
    if !ValuesTyped(s, values) then BadValues
    else if NewKey(s, values) in Contents(t) then Duplicate
    else if !ValuesFit(values) then TextTooLong
    else
      var need := InsertPages(t, NewKey(s, values));
      if need == 0 || numPages + need <= TABLES_MAX_PAGES then Stored else OutOfPages
  }

  /** What an INSERT leaves behind: only a stored row changes the table, and then by just that row; an INSERT
      that runs out of page numbers stays inside its table. */
  ghost predicate InsertDone(t: Tree, s: Schema, values: seq<Literal>, numPages: nat, r: InsertOutcome, t': Tree, h': Heap, numPages': nat)
    requires WellFormed(t) && SchemaOK(s)
  {
    && r == ExpectedOutcome(t, s, values, numPages)
    && match r
       case Stored =>
         && t'.pages == h' && Inserted(t, t', NewCell(s, values)) && numPages' == numPages + InsertPages(t, NewKey(s, values))
         && (SplitsNoHolder(t, NewKey(s, values)) ==> UpsStay(t, t'))
       case OutOfPages => KeptOutside(t.pages, h', t.shape.Keys) && (numPages >= TABLES_MAX_PAGES ==> h' == t.pages)
       case _ => t' == t && h' == t.pages && numPages' == numPages
  }

  /** `insert_command`: the outcome is decided by the values, the stored keys and the number of
      page numbers left. */
  method InsertCommand(pager: Pager, root: nat, s: Schema, values: seq<Literal>, ghost t: Tree)
    returns (r: InsertOutcome, ghost t': Tree)
    requires pager.Valid() && t.pages == pager.Heap() && t.root == root && t.cap == LeafMaxCells(s)
    requires WellFormed(t) && Parented(t) && SchemaOK(s)
    modifies pager`cache, pager`dirty, pager`numPages
    ensures old(pager.dirty) <= pager.dirty
    ensures pager.Valid() && InsertDone(t, s, values, old(pager.numPages), r, t', pager.Heap(), pager.numPages)
    ensures r != OutOfPages && old(pager.Recoverable()) ==> pager.Recoverable()
  {
    t' := t;
    if !ValuesTyped(s, values) {
      return BadValues, t;
    }
    var key := NewKey(s, values);
    var leaf := LeafNodeForKey(pager, root, key, t);
    PageFacts(t, 0, leaf);
    ContentsAt(t, key);
    var page := pager.cache[leaf];
    var i := LeafNodeFind(page, key);
    if i < page.num && Cells(page)[i].key == key {
      assert Cells(page)[i] in Cells(page);
      return Duplicate, t;
    }
    AbsentFromLeaf(Cells(page), key, i);
    var fits, row := BuildRow(values);
    if !fits {
      return TextTooLong, t;
    }
    var ok;
    ok, t' := InsertAbsent(pager, leaf, i, LeafMaxCells(s), Cell(key, row), t);
    r := if ok then Stored else OutOfPages;
  }

  /** The leaf insert, falling back to a split when the leaf is full. */
  method InsertAbsent(pager: Pager, leaf: nat, i: nat, cap: nat, c: Cell, ghost t: Tree) returns (ok: bool, ghost t': Tree)
    requires pager.Valid() && leaf in pager.cache && t.pages == pager.Heap() && cap == t.cap
    requires WellFormed(t) && Parented(t) && leaf in t.shape && PageOK(t, 0, leaf) && t.pages[leaf].Leaf?
    requires t.shape[leaf].lo <= c.key < t.shape[leaf].hi && IsCellBound(Cells(t.pages[leaf]), c.key, i)
    requires forall d :: d in Cells(t.pages[leaf]) ==> d.key != c.key
    modifies pager`cache, pager`dirty, pager`numPages
    ensures old(pager.dirty) <= pager.dirty
    ensures pager.Valid()
    ensures var need := if t.pages[leaf].num < cap then 0 else SplitPages(t, 0, leaf);
            && (ok <==> old(pager.numPages) + need <= TABLES_MAX_PAGES || need == 0)
            && (ok ==> pager.numPages == old(pager.numPages) + need)
    ensures ok ==> t'.pages == pager.Heap() && Inserted(t, t', c)
    ensures ok && (t.pages[leaf].num < cap || HolderHasRoomFor(t, leaf)) ==> UpsStay(t, t')
    ensures !ok ==> KeptOutside(old(pager.Heap()), pager.Heap(), t.shape.Keys)
    ensures !ok && old(pager.numPages) >= TABLES_MAX_PAGES ==> pager.Heap() == old(pager.Heap())
    ensures ok && old(pager.Recoverable()) ==> pager.Recoverable()
  {
    var full := LeafNodeInsert(pager, leaf, i, c, cap);
    if full {
      ok, t' := SplitLeafNode(pager, leaf, c, cap, t);
    } else {
      ok := true;
      LeafInsertKeepsTree(t, leaf, i, c);
      t' := WithLeaf(t, leaf, InsertSlot(t.pages[leaf], i, c));
    }
  }

  lemma AbsentFromLeaf(cells: seq<Cell>, key: Key, i: nat)
    requires SortedCells(cells) && IsCellBound(cells, key, i) && (i < |cells| ==> cells[i].key != key)
    ensures forall d :: d in cells ==> d.key != key
  {
    assert forall x :: i < x < |cells| ==> cells[i].key < cells[x].key;
  }

  lemma InsertedContents(t: Tree, t': Tree, c: Cell)
    requires WellFormed(t) && WellFormed(t') && CellSet(t') == CellSet(t) + {c} && c.key !in Contents(t)
    ensures Contents(t') == Contents(t)[c.key := c.row]
  {
    var m, m' := Contents(t)[c.key := c.row], Contents(t');
    forall k
      ensures k in m' <==> k in m
      ensures k in m ==> m'[k] == m[k]
    {
      if k in m { assert Cell(k, m[k]) in CellSet(t'); }
    }
  }
}
