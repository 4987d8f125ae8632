/** The B+ tree as a heap of pages: its invariant, and the facts every walk over it relies on. */
module Trees {
  import opened Rows
  import opened Pages

  type Heap = map<nat, Page>

  /** What a page's place in the tree promises: the half-open key interval [lo, hi) it owns,
      its height above the leaves, and the page that holds it. */
  datatype Span = Span(lo: int, hi: int, level: nat, up: nat)
  type Shape = map<nat, Span>

  /** Internal nodes other than the root never have fewer keys than this. */
  const MIN_KEYS: nat := INTERNAL_NODE_MAX_KEYS - INTERNAL_MID

  /** One table's tree inside a page heap; `shape` names exactly the pages it owns. */
  datatype Tree = Tree(pages: Heap, shape: Shape, root: nat, cap: nat)

  ghost function LowOf(s: Span, keys: seq<Key>, i: nat): int
    requires i <= |keys|
  {
    if i == 0 then s.lo else keys[i - 1]
  }

  ghost function HighOf(s: Span, keys: seq<Key>, i: nat): int
    requires i <= |keys|
  {
    if i == |keys| then s.hi else keys[i]
  }

  /** Kid i of page p owns the interval between separators i-1 and i, one level down. */
  ghost predicate KidOK(n: Page, g: Shape, root: nat, p: nat, i: nat)
    requires n.Internal? && |n.kids| == |n.keys| + 1 && p in g && i < |n.kids|
  {
    && n.kids[i] in g
    && n.kids[i] != root
    && g[p].level > 0
    && g[n.kids[i]] == Span(LowOf(g[p], n.keys, i), HighOf(g[p], n.keys, i), g[p].level - 1, p)
  }

  ghost predicate InternalOK(n: Page, g: Shape, root: nat, p: nat, limit: nat)
    requires n.Internal? && p in g
  {
    && |n.kids| == |n.keys| + 1
    && 1 <= |n.keys| <= limit
    && (p != root ==> MIN_KEYS <= |n.keys|)
    && g[p].level > 0
    && Sorted(n.keys)
    && (forall i :: 0 <= i < |n.keys| ==> g[p].lo < n.keys[i] < g[p].hi)
    && (forall i: nat {:trigger KidOK(n, g, root, p, i)} :: i < |n.kids| ==> KidOK(n, g, root, p, i))
  }

  /** The next-leaf link leads to the leaf whose interval starts where this one ends. */
  ghost predicate LinkOK(h: Heap, g: Shape, next: nat, hi: int) {
    if next == 0 then hi == KEY_END
    else next in g && next in h && h[next].Leaf? && g[next].lo == hi
  }

  ghost predicate LeafOK(n: Page, s: Span, cap: nat)
    requires n.Leaf?
  {
    && s.level == 0
    && n.num <= |n.slots| <= cap
    && SortedCells(Cells(n))
    && forall i :: 0 <= i < n.num ==> s.lo <= n.slots[i].key < s.hi
  }

  ghost predicate UpOK(h: Heap, g: Shape, p: nat)
    requires p in g
  {
    && g[p].up in g
    && g[p].up in h
    && h[g[p].up].Internal?
    && p in h[g[p].up].kids
  }

  /** Everything the invariant says about page p. Page `over` may hold one separator too many. */
  ghost predicate PageOK(t: Tree, over: nat, p: nat)
    requires t.root in t.shape && p in t.shape
  {
    && p in t.pages
    && 0 < p < TABLES_MAX_PAGES
    && KEY_MIN <= t.shape[p].lo < t.shape[p].hi <= KEY_END
    && (p == t.root ==> t.shape[p].lo == KEY_MIN && t.shape[p].hi == KEY_END)
    && (p != t.root ==> t.shape[p].level < t.shape[t.root].level && UpOK(t.pages, t.shape, p))
    && match t.pages[p]
       case Leaf(isRoot, _, next, _, _) =>
         && isRoot == (p == t.root)
         && LeafOK(t.pages[p], t.shape[p], t.cap)
         && LinkOK(t.pages, t.shape, next, t.shape[p].hi)
       case Internal(isRoot, _, _, _) =>
         && isRoot == (p == t.root)
         && InternalOK(t.pages[p], t.shape, t.root, p, if p == over then INTERNAL_NODE_MAX_KEYS + 1 else INTERNAL_NODE_MAX_KEYS)
       case Catalog(_) => false
  }

  /** The tree invariant, except that page `over` may be one key too large (0: no such page). */
  ghost predicate Overfull(t: Tree, over: nat) {
    && t.root in t.shape
    && 2 <= t.cap
    && forall p {:trigger PageOK(t, over, p)} :: p in t.shape ==> PageOK(t, over, p)
  }

  ghost predicate WellFormed(t: Tree) { Overfull(t, 0) }

  ghost predicate ParentOK(t: Tree, p: nat)
    requires p in t.shape && p in t.pages
  {
    p != t.root && !t.pages[p].Catalog? ==> t.pages[p].parent == t.shape[p].up
  }

  /** Every non-root page's parent field names the page that holds it. */
  ghost predicate Parented(t: Tree) {
    forall p {:trigger t.pages[p]} :: p in t.shape && p in t.pages ==> ParentOK(t, p)
  }

  lemma PageFacts(t: Tree, over: nat, p: nat)
    requires Overfull(t, over) && p in t.shape
    ensures PageOK(t, over, p)
  {
  }

  lemma KidFacts(t: Tree, over: nat, p: nat, i: nat)
    requires Overfull(t, over) && p in t.shape && PageOK(t, over, p)
    requires t.pages[p].Internal? && i < |t.pages[p].kids|
    ensures KidOK(t.pages[p], t.shape, t.root, p, i)
    ensures PageOK(t, over, t.pages[p].kids[i])
  {
    assert KidOK(t.pages[p], t.shape, t.root, p, i);
  }

  /** The index of a non-root page among its holder's kids. */
  ghost function KidIndex(t: Tree, over: nat, p: nat): (i: nat)
    requires Overfull(t, over) && p in t.shape && p != t.root
    ensures t.shape[p].up in t.shape && PageOK(t, over, t.shape[p].up)
    ensures t.pages[t.shape[p].up].Internal?
    ensures i < |t.pages[t.shape[p].up].kids| && t.pages[t.shape[p].up].kids[i] == p
    ensures KidOK(t.pages[t.shape[p].up], t.shape, t.root, t.shape[p].up, i)
  {
    PageFacts(t, over, p);
    var u := t.shape[p].up;
    PageFacts(t, over, u);
    var i: nat :| i < |t.pages[u].kids| && t.pages[u].kids[i] == p;
    KidFacts(t, over, u, i);
    i
  }

  /** Pages on the same level own disjoint intervals. */
  lemma {:induction false} SameLevelDisjoint(t: Tree, over: nat, p: nat, q: nat, k: int)
    requires Overfull(t, over) && p in t.shape && q in t.shape
    requires t.shape[p].level == t.shape[q].level
    requires t.shape[p].lo <= k < t.shape[p].hi && t.shape[q].lo <= k < t.shape[q].hi
    ensures p == q
    decreases t.shape[t.root].level - t.shape[p].level
  {
    PageFacts(t, over, p);
    PageFacts(t, over, q);
    if p != t.root && q != t.root {
      var i, j := KidIndex(t, over, p), KidIndex(t, over, q);
      var u, w := t.shape[p].up, t.shape[q].up;
      KidInside(t, over, u, i);
      KidInside(t, over, w, j);
      PageFacts(t, over, u);
      SameLevelDisjoint(t, over, u, w, k);
      if i < j {
        KidOrder(t, over, u, i, j);
      } else if j < i {
        KidOrder(t, over, u, j, i);
      }
    }
  }

  /** Kids own their intervals from left to right. */
  lemma KidOrder(t: Tree, over: nat, p: nat, i: nat, j: nat)
    requires Overfull(t, over) && p in t.shape && PageOK(t, over, p)
    requires t.pages[p].Internal? && i < j < |t.pages[p].kids|
    ensures t.pages[p].kids[i] in t.shape && t.pages[p].kids[j] in t.shape
    ensures t.shape[t.pages[p].kids[i]].hi <= t.shape[t.pages[p].kids[j]].lo
    ensures t.pages[p].kids[i] != t.pages[p].kids[j]
  {
    KidFacts(t, over, p, i);
    KidFacts(t, over, p, j);
    var keys := t.pages[p].keys;
    assert keys[i] <= keys[j - 1];
  }

  lemma KidInside(t: Tree, over: nat, p: nat, i: nat)
    requires Overfull(t, over) && p in t.shape && PageOK(t, over, p)
    requires t.pages[p].Internal? && i < |t.pages[p].kids|
    ensures t.pages[p].kids[i] in t.shape
    ensures t.shape[p].lo <= t.shape[t.pages[p].kids[i]].lo
    ensures t.shape[t.pages[p].kids[i]].hi <= t.shape[p].hi
  {
    KidFacts(t, over, p, i);
  }

  /** The leaf a descent from page p reaches: `leaf_node_for_key`. */
  ghost function LeafFor(t: Tree, over: nat, p: nat, k: Key): (leaf: nat)
    requires Overfull(t, over) && p in t.shape && t.shape[p].lo <= k < t.shape[p].hi
    ensures leaf in t.shape && leaf in t.pages && t.pages[leaf].Leaf?
    ensures t.shape[leaf].lo <= k < t.shape[leaf].hi
    ensures t.shape[p].lo <= t.shape[leaf].lo && t.shape[leaf].hi <= t.shape[p].hi
    decreases t.shape[p].level
  {
    PageFacts(t, over, p);
    if t.pages[p].Leaf? then p
    else
      var i := Slot(t.pages[p].keys, k);
      KidFacts(t, over, p, i);
      KidInside(t, over, p, i);
      LeafFor(t, over, t.pages[p].kids[i], k)
  }

  lemma LeafLevel(t: Tree, over: nat, p: nat)
    requires Overfull(t, over) && p in t.shape
    ensures PageOK(t, over, p) && (t.pages[p].Leaf? <==> t.shape[p].level == 0)
  {
    PageFacts(t, over, p);
  }

  /** The descent finds the only leaf whose interval holds the key. */
  lemma LeafForUnique(t: Tree, over: nat, leaf: nat, k: Key)
    requires Overfull(t, over) && leaf in t.shape && leaf in t.pages && t.pages[leaf].Leaf?
    requires t.shape[leaf].lo <= k < t.shape[leaf].hi
    ensures PageOK(t, over, t.root)
    ensures LeafFor(t, over, t.root, k) == leaf
  {
    PageFacts(t, over, t.root);
    var other := LeafFor(t, over, t.root, k);
    LeafLevel(t, over, leaf);
    LeafLevel(t, over, other);
    SameLevelDisjoint(t, over, leaf, other, k);
  }

  /** Every cell stored anywhere in the tree. */
  ghost function CellSet(t: Tree): set<Cell> {
    set p, c | p in t.shape && p in t.pages && c in Cells(t.pages[p]) :: c
  }

  /** Every cell in any slot of the tree, live or stale. */
  ghost function AllSlots(t: Tree): set<Cell> {
    set p, c | p in t.shape && p in t.pages && t.pages[p].Leaf? && c in t.pages[p].slots :: c
  }

  lemma CellInSlots(t: Tree, c: Cell)
    requires c in CellSet(t)
    ensures c in AllSlots(t)
  {
    var p :| p in t.shape && p in t.pages && c in Cells(t.pages[p]);
    var i :| 0 <= i < |Cells(t.pages[p])| && Cells(t.pages[p])[i] == c;
    assert t.pages[p].slots[i] in t.pages[p].slots;
  }

  lemma CellHome(t: Tree, over: nat, p: nat, c: Cell)
    requires Overfull(t, over) && p in t.shape && p in t.pages && c in Cells(t.pages[p])
    ensures t.pages[p].Leaf? && t.shape[p].lo <= c.key < t.shape[p].hi
  {
    PageFacts(t, over, p);
  }

  /** No two stored cells share a key. */
  lemma CellKeysUnique(t: Tree, over: nat)
    requires Overfull(t, over)
    ensures forall c, d :: c in CellSet(t) && d in CellSet(t) && c.key == d.key ==> c == d
  {
    forall c, d | c in CellSet(t) && d in CellSet(t) && c.key == d.key
      ensures c == d
    {
      var p :| p in t.shape && p in t.pages && c in Cells(t.pages[p]);
      var q :| q in t.shape && q in t.pages && d in Cells(t.pages[q]);
      CellHome(t, over, p, c);
      CellHome(t, over, q, d);
      PageFacts(t, over, p);
      PageFacts(t, over, q);
      SameLevelDisjoint(t, over, p, q, c.key);
      var i :| 0 <= i < |Cells(t.pages[p])| && Cells(t.pages[p])[i] == c;
      var j :| 0 <= j < |Cells(t.pages[p])| && Cells(t.pages[p])[j] == d;
    }
  }

  /** The table as a map from primary key to row. */
  ghost function Contents(t: Tree): (m: map<Key, Row>)
    requires WellFormed(t)
    ensures forall c :: c in CellSet(t) ==> c.key in m && m[c.key] == c.row
    ensures forall k :: k in m ==> Cell(k, m[k]) in CellSet(t)
  {
    CellKeysUnique(t, 0);
    map c | c in CellSet(t) :: c.key := c.row
  }

  /** A key is present exactly when the leaf the descent reaches holds it. */
  lemma ContentsAt(t: Tree, k: Key)
    requires WellFormed(t)
    ensures PageOK(t, 0, t.root)
    ensures k in Contents(t) <==> exists c :: c in Cells(t.pages[LeafFor(t, 0, t.root, k)]) && c.key == k
    ensures forall c :: c in Cells(t.pages[LeafFor(t, 0, t.root, k)]) && c.key == k ==> k in Contents(t) && Contents(t)[k] == c.row
  {
    PageFacts(t, 0, t.root);
    var leaf := LeafFor(t, 0, t.root, k);
    if k in Contents(t) {
      var c := Cell(k, Contents(t)[k]);
      assert c in CellSet(t);
      var p :| p in t.shape && p in t.pages && c in Cells(t.pages[p]);
      CellHome(t, 0, p, c);
      LeafForUnique(t, 0, p, k);
    }
    forall c | c in Cells(t.pages[leaf]) && c.key == k
      ensures k in Contents(t) && Contents(t)[k] == c.row
    {
      assert c in CellSet(t);
    }
  }
}
