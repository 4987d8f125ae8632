/** INSERT: the descent, the in-place leaf insert and the split ripple of `src/btree.c`. */
module Inserts {
  import opened Rows
  import opened Pages
  import opened Trees
  import opened Splits
  import opened Pagers

  // How many pages a split needs

  /** The pages allocated when page q splits and the ripple runs its course. */
  ghost function SplitPages(t: Tree, over: nat, q: nat): nat
    requires Overfull(t, over) && q in t.shape
    decreases t.shape[t.root].level - t.shape[q].level
  {
    if q == t.root then 2
    else
      HolderLevel(t, over, q);
      PageFacts(t, over, t.shape[q].up);
      var u := t.shape[q].up;
      1 + if |t.pages[u].keys| < INTERNAL_NODE_MAX_KEYS then 0 else SplitPages(t, over, u)
  }

  /** One insert allocates at most one page more than the tree has levels. */
  lemma {:induction false} SplitPagesBound(t: Tree, over: nat, q: nat)
    requires Overfull(t, over) && q in t.shape
    ensures SplitPages(t, over, q) <= t.shape[t.root].level - t.shape[q].level + 2
    decreases t.shape[t.root].level - t.shape[q].level
  {
    if q != t.root {
      HolderLevel(t, over, q);
      PageFacts(t, over, t.shape[q].up);
      SplitPagesBound(t, over, t.shape[q].up);
    }
  }

  lemma {:induction false} SplitPagesStable(t: Tree, over: nat, t': Tree, over': nat, w: nat)
    requires Overfull(t, over) && Overfull(t', over') && t'.root == t.root
    requires w in t.shape && w in t'.shape && t'.shape[w] == t.shape[w]
    requires forall p :: p in t.shape && t.shape[p].level > t.shape[w].level ==>
               p in t.pages && p in t'.shape && t'.shape[p] == t.shape[p] && p in t'.pages && t'.pages[p] == t.pages[p]
    ensures SplitPages(t', over', w) == SplitPages(t, over, w)
    decreases t.shape[t.root].level - t.shape[w].level
  {
    if w != t.root {
      HolderLevel(t, over, w);
      HolderLevel(t', over', w);
      PageFacts(t, over, t.shape[w].up);
      SplitPagesStable(t, over, t', over', t.shape[w].up);
    }
  }

  // Slot agreement

  /** A key strictly inside page q's interval falls, in the holder, exactly on the slot of q:
      the binary search for a promoted separator and the descent agree. */
  lemma SlotAgreement(t: Tree, over: nat, q: nat, m: Key, i: nat)
    requires Overfull(t, over) && q in t.shape && q != t.root && t.shape[q].lo < m < t.shape[q].hi
    requires t.shape[q].up in t.shape && PageOK(t, over, t.shape[q].up) && t.pages[t.shape[q].up].Internal?
    requires IsLowerBound(t.pages[t.shape[q].up].keys, m, i)
    ensures i < |t.pages[t.shape[q].up].kids| && t.pages[t.shape[q].up].kids[i] == q
    ensures i == Slot(t.pages[t.shape[q].up].keys, m)
  {
    var j := KidIndex(t, over, q);
    var keys := t.pages[t.shape[q].up].keys;
    assert j > 0 ==> keys[j - 1] < m;
    assert j < |keys| ==> m < keys[j];
    LowerBoundUnique(keys, m, i, j);
    LowerBoundUnique(keys, m, j, Slot(keys, m));
  }

  /** Around a key that is not itself a separator, lower bound and descent slot coincide. */
  lemma LowerBoundUnique(keys: seq<Key>, m: Key, i: nat, j: nat)
    requires Sorted(keys) && IsLowerBound(keys, m, i)
    requires j <= |keys| && (j > 0 ==> keys[j - 1] <= m) && (j < |keys| ==> m < keys[j])
    requires m !in keys
    ensures i == j
  {
    assert j > 0 ==> keys[j - 1] in keys;
    assert forall x :: 0 <= x < j ==> keys[x] < m;
  }

  lemma FitsAfterAll(t: Tree, over: nat)
    requires Overfull(t, over) && over in t.shape && PageOK(t, over, over) && t.pages[over].Internal?
    requires |t.pages[over].keys| <= INTERNAL_NODE_MAX_KEYS
    ensures WellFormed(t)
  {
    forall p | p in t.shape
      ensures PageOK(t, 0, p)
    {
      PageFacts(t, over, p);
    }
  }

  // The methods

  /** `leaf_node_for_key`: descend from the root to the leaf that owns the key. */
  method LeafNodeForKey(pager: Pager, root: nat, key: Key, ghost t: Tree) returns (leaf: nat)
    requires pager.Valid() && WellFormed(t) && t.root == root && t.pages == pager.Heap()
    modifies pager`cache
    ensures pager.Valid() && pager.Heap() == old(pager.Heap())
    ensures old(pager.Recoverable()) ==> pager.Recoverable()
    ensures PageOK(t, 0, root) && leaf == LeafFor(t, 0, root, key) && leaf in pager.cache
  {
    PageFacts(t, 0, root);
    leaf := root;
    var page := pager.Fetch(root);
    while page.Internal?
      invariant pager.Valid() && pager.Heap() == t.pages
      invariant old(pager.Recoverable()) ==> pager.Recoverable()
      invariant leaf in t.shape && PageOK(t, 0, leaf) && page == t.pages[leaf] && leaf in pager.cache
      invariant t.shape[leaf].lo <= key < t.shape[leaf].hi
      invariant LeafFor(t, 0, root, key) == LeafFor(t, 0, leaf, key)
      decreases t.shape[leaf].level
    {
      var i := DescendSlot(page, key);
      KidFacts(t, 0, leaf, i);
      leaf := page.kids[i];
      page := pager.Fetch(leaf);
    }
  }

  /** `internal_node_insert` when there is room. */
  method InternalNodeInsert(pager: Pager, u: nat, j: nat, key: Key, left: nat, right: nat) returns (full: bool)
    requires pager.Valid() && u in pager.cache && pager.cache[u].Internal?
    requires |pager.cache[u].kids| == |pager.cache[u].keys| + 1 && j <= |pager.cache[u].keys|
    modifies pager`cache, pager`dirty
    ensures old(pager.dirty) <= pager.dirty
    ensures pager.Valid()
    ensures full <==> |old(pager.cache[u]).keys| >= INTERNAL_NODE_MAX_KEYS
    ensures full ==> pager.cache == old(pager.cache) && pager.dirty == old(pager.dirty)
    ensures !full ==> u in pager.cache && pager.dirty == old(pager.dirty) + {u}
    ensures !full && old(pager.Recoverable()) ==> pager.Recoverable()
    ensures pager.Heap() == if full then old(pager.Heap()) else old(pager.Heap())[u := InsertKid(old(pager.cache[u]), j, key, left, right)]
  {
    if |pager.cache[u].keys| >= INTERNAL_NODE_MAX_KEYS {
      return true;
    }
    pager.Write(u, InsertKid(pager.cache[u], j, key, left, right));
    pager.MarkDirty(u);
    full := false;
  }

  lemma ReparentStep(h: Heap, moved: seq<nat>, j: nat, parent: nat)
    requires j < |moved| && moved[j] in h
    ensures Reparent(h, moved[..j + 1], parent)
         == Reparent(h, moved[..j], parent)[moved[j] := SetParent(Reparent(h, moved[..j], parent)[moved[j]], parent)]
  {
    assert moved[..j + 1] == moved[..j] + [moved[j]];
  }

  method ReparentKid(pager: Pager, c: nat, parent: nat, ghost pending: set<nat>)
    requires pager.Valid() && c in pager.Heap() && c < TABLES_MAX_PAGES
    modifies pager`cache
    ensures pager.Valid() && pager.Heap() == old(pager.Heap())[c := SetParent(old(pager.Heap())[c], parent)]
    ensures pager.cache.Keys == old(pager.cache).Keys + {c}
    ensures old(pager.RecoverableBut(pending)) ==> pager.RecoverableBut(pending)
  {
    var page := pager.Fetch(c);
    pager.Write(c, SetParent(page, parent));
  }

  /** The loops that rewrite the parent field of every moved child; none of them is marked dirty. */
  method ReparentKids(pager: Pager, moved: seq<nat>, parent: nat, ghost pending: set<nat>)
    requires pager.Valid()
    requires forall j :: 0 <= j < |moved| ==> moved[j] in pager.Heap() && moved[j] < TABLES_MAX_PAGES
    modifies pager`cache
    ensures pager.Valid() && pager.Heap() == Reparent(old(pager.Heap()), moved, parent)
    ensures old(pager.cache).Keys <= pager.cache.Keys
    ensures old(pager.RecoverableBut(pending)) ==> pager.RecoverableBut(pending)
  {
    var j := 0;
    ghost var h := pager.Heap();
    assert Reparent(h, moved[..0], parent) == h;
    while j < |moved|
      invariant j <= |moved|
      invariant pager.Valid() && pager.Heap() == Reparent(h, moved[..j], parent)
      invariant old(pager.cache).Keys <= pager.cache.Keys
      invariant old(pager.RecoverableBut(pending)) ==> pager.RecoverableBut(pending)
    {
      ReparentStep(h, moved, j, parent);
      ReparentKid(pager, moved[j], parent, pending);
      j := j + 1;
    }
    assert moved[..|moved|] == moved;
  }

  /** The state in which an internal split starts: page q is full, and giving it the pair
      (left, right) around newKey at index j is all that separates the heap from tree t. */
  ghost predicate SplitPending(pager: Pager, q: nat, newKey: Key, left: nat, right: nat, j: nat, t: Tree)
    reads pager
  {
    && pager.Valid() && q in pager.cache && pager.cache[q].Internal?
    && |pager.cache[q].keys| == INTERNAL_NODE_MAX_KEYS && |pager.cache[q].kids| == INTERNAL_NODE_MAX_KEYS + 1
    && j <= INTERNAL_NODE_MAX_KEYS
    && Overfull(t, q) && q in t.shape && Parented(t)
    && t.pages == pager.Heap()[q := InsertKid(pager.cache[q], j, newKey, left, right)]
  }

  lemma FoundInsertSlot(n: Page, j: nat, key: Key, left: nat, right: nat, c: nat)
    requires n.Internal? && j <= |n.keys| && |n.kids| == |n.keys| + 1
    requires Sorted(InsertKid(n, j, key, left, right).keys)
    ensures Sorted(n.keys)
    ensures IsLowerBound(n.keys, key, c) ==> c == j
  {
    var keys := InsertKid(n, j, key, left, right).keys;
    assert forall x :: 0 <= x < |n.keys| ==> n.keys[x] == keys[if x < j then x else x + 1];
    assert keys[j] == key;
    assert forall x :: 0 <= x < j ==> n.keys[x] < key;
    assert forall x :: j <= x < |n.keys| ==> key < n.keys[x];
    if IsLowerBound(n.keys, key, c) {
      LowerBoundUnique(n.keys, key, c, j);
    }
  }

  /** Pages outside `owned` are as they were. */
  ghost predicate KeptOutside(h: Heap, h': Heap, owned: set<nat>) {
    forall p :: p in h && p !in owned ==> p in h' && h'[p] == h[p]
  }

  method WriteHalves(pager: Pager, q: nat, temp: Page) returns (ok: bool, r: nat)
    requires pager.Valid() && q in pager.cache
    requires temp.Internal? && |temp.keys| == INTERNAL_NODE_MAX_KEYS + 1 && |temp.kids| == |temp.keys| + 1
    modifies pager`cache, pager`numPages
    ensures pager.Valid()
    ensures r == old(pager.numPages) && r !in old(pager.Heap()) && (ok <==> r < TABLES_MAX_PAGES)
    ensures ok ==> pager.numPages == r + 1 && q in pager.cache && r in pager.cache
    ensures pager.Heap() == if ok then old(pager.Heap())[q := LeftHalf(temp)][r := RightHalf(temp)] else old(pager.Heap())
    ensures ok && old(pager.Recoverable()) ==> pager.RecoverableBut({q, r})
  {
    ok, r := pager.GetFreshPage();
    if ok {
      pager.Write(q, LeftHalf(temp));
      pager.Write(r, RightHalf(temp));
    }
  }

  /** Both halves of a non-root internal node: the left one stays, the right one gets a new page. */
  method SplitOff(pager: Pager, q: nat, temp: Page) returns (ok: bool, r: nat)
    requires pager.Valid() && q in pager.cache
    requires temp.Internal? && |temp.keys| == INTERNAL_NODE_MAX_KEYS + 1 && |temp.kids| == |temp.keys| + 1
    requires forall j :: 0 <= j < |temp.kids| ==> temp.kids[j] in pager.Heap() && temp.kids[j] < TABLES_MAX_PAGES
    requires q !in temp.kids
    modifies pager`cache, pager`dirty, pager`numPages
    ensures old(pager.dirty) <= pager.dirty
    ensures pager.Valid()
    ensures r == old(pager.numPages) && r !in old(pager.Heap()) && (ok <==> r < TABLES_MAX_PAGES)
    ensures ok ==> pager.numPages == r + 1 && q in pager.cache && r in pager.cache
    ensures ok ==> pager.Heap() == Reparent(old(pager.Heap()), temp.kids[INTERNAL_MID + 1..], r)[q := LeftHalf(temp)][r := RightHalf(temp)]
    ensures !ok ==> pager.Heap() == old(pager.Heap())
    ensures ok && old(pager.Recoverable()) ==> pager.Recoverable()
  {
    ok, r := WriteHalves(pager, q, temp);
    if ok {
      ReparentAround(old(pager.Heap()), temp.kids[INTERNAL_MID + 1..], q, LeftHalf(temp), r, RightHalf(temp));
      ReparentKids(pager, temp.kids[INTERNAL_MID + 1..], r, {q, r});
      pager.MarkDirty(q);
      pager.MarkDirty(r);
    }
  }

  lemma ReparentAround(h: Heap, moved: seq<nat>, q: nat, left: Page, r: nat, right: Page)
    requires q in h && r !in h && q !in moved && r !in moved
    ensures Reparent(h[q := left][r := right], moved, r) == Reparent(h, moved, r)[q := left][r := right]
  {
  }

  lemma Overwritten(h: Heap, a: nat, b: nat, left: Page, right: Page)
    requires a != b
    ensures h[a := ZERO_PAGE][b := ZERO_PAGE][a := left][b := right] == h[a := left][b := right]
  {
  }

  method WriteRootHalves(pager: Pager, q: nat, temp: Page) returns (ok: bool, a: nat, b: nat)
    requires pager.Valid() && q in pager.cache
    requires temp.Internal? && |temp.keys| == INTERNAL_NODE_MAX_KEYS + 1 && |temp.kids| == |temp.keys| + 1
    modifies pager`cache, pager`numPages
    ensures pager.Valid()
    ensures ok <==> old(pager.numPages) + 2 <= TABLES_MAX_PAGES
    ensures ok ==> a == old(pager.numPages) && b == a + 1 && pager.numPages == b + 1
    ensures a !in old(pager.Heap()) && (ok ==> b !in old(pager.Heap()))
    ensures ok ==> q in pager.cache && a in pager.cache && b in pager.cache
    ensures ok ==> pager.Heap() == old(pager.Heap())[a := SetParent(LeftHalf(temp), q)][b := SetParent(RightHalf(temp), q)]
    ensures !ok ==> KeptOutside(old(pager.Heap()), pager.Heap(), {})
    ensures ok && old(pager.Recoverable()) ==> pager.RecoverableBut({a, b})
  {
    ok, a := pager.GetFreshPage();
    b := a;
    if ok {
      ok, b := pager.GetFreshPage();
    }
    if ok {
      Overwritten(old(pager.Heap()), a, b, SetParent(LeftHalf(temp), q), SetParent(RightHalf(temp), q));
      pager.Write(a, SetParent(LeftHalf(temp), q));
      pager.Write(b, SetParent(RightHalf(temp), q));
    }
  }

  /** The heap SplitRoot leaves behind, write by write. */
  ghost function RootSplitHeap(h: Heap, q: nat, temp: Page, a: nat, b: nat): Heap
    requires temp.Internal? && |temp.keys| == INTERNAL_NODE_MAX_KEYS + 1 && |temp.kids| == |temp.keys| + 1
  {
    Reparent(Reparent(h[a := SetParent(LeftHalf(temp), q)][b := SetParent(RightHalf(temp), q)],
                      temp.kids[..INTERNAL_MID + 1], a), temp.kids[INTERNAL_MID + 1..], b)
      [q := Internal(true, temp.parent, [temp.keys[INTERNAL_MID]], [a, b])]
  }

  /** The overfull root: both halves get new pages, the root page becomes their holder. */
  method SplitRoot(pager: Pager, q: nat, temp: Page) returns (ok: bool, a: nat, b: nat)
    requires pager.Valid() && q in pager.cache
    requires temp.Internal? && |temp.keys| == INTERNAL_NODE_MAX_KEYS + 1 && |temp.kids| == |temp.keys| + 1
    requires forall j :: 0 <= j < |temp.kids| ==> temp.kids[j] in pager.Heap() && temp.kids[j] < TABLES_MAX_PAGES
    modifies pager`cache, pager`dirty, pager`numPages
    ensures old(pager.dirty) <= pager.dirty
    ensures pager.Valid()
    ensures ok <==> old(pager.numPages) + 2 <= TABLES_MAX_PAGES
    ensures ok ==> a == old(pager.numPages) && b == a + 1 && pager.numPages == b + 1
    ensures a !in old(pager.Heap()) && (ok ==> b !in old(pager.Heap()))
    ensures ok ==> pager.Heap() == RootSplitHeap(old(pager.Heap()), q, temp, a, b)
    ensures !ok ==> KeptOutside(old(pager.Heap()), pager.Heap(), {})
    ensures ok && old(pager.Recoverable()) ==> pager.Recoverable()
  {
    ok, a, b := WriteRootHalves(pager, q, temp);
    if ok {
      ReparentKids(pager, temp.kids[..INTERNAL_MID + 1], a, {a, b});
      ReparentKids(pager, temp.kids[INTERNAL_MID + 1..], b, {a, b});
      WriteRoot(pager, q, Internal(true, temp.parent, [temp.keys[INTERNAL_MID]], [a, b]), a, b);
    }
  }

  method WriteRoot(pager: Pager, q: nat, page: Page, a: nat, b: nat)
    requires pager.Valid() && q in pager.cache && a in pager.cache && b in pager.cache
    modifies pager`cache, pager`dirty
    ensures old(pager.dirty) <= pager.dirty
    ensures pager.Valid() && pager.Heap() == old(pager.Heap())[q := page]
    ensures old(pager.RecoverableBut({a, b})) ==> pager.Recoverable()
  {
    pager.Write(q, page);
    pager.MarkDirty(a);
    pager.MarkDirty(b);
    pager.MarkDirty(q);
  }

  /** The order of the writes does not matter: the fresh pages and the root are nobody's moved kids. */
  lemma RootHeap(h: Heap, t: Tree, a: nat, b: nat)
    requires Overfull(t, t.root) && PageOK(t, t.root, t.root) && t.pages[t.root].Internal?
    requires |t.pages[t.root].keys| == INTERNAL_NODE_MAX_KEYS + 1
    requires t.root in h && t.pages == h[t.root := t.pages[t.root]]
    requires a !in h && b !in h && a != b
    ensures RootSplitHeap(h, t.root, t.pages[t.root], a, b) == RootSplit(t, a, b).pages
  {
    RootKidsStored(t);
  }

  lemma RootKidsStored(t: Tree)
    requires Overfull(t, t.root) && PageOK(t, t.root, t.root) && t.pages[t.root].Internal?
    ensures forall i :: 0 <= i < |t.pages[t.root].kids| ==>
              t.pages[t.root].kids[i] in t.pages && t.pages[t.root].kids[i] < TABLES_MAX_PAGES && t.pages[t.root].kids[i] != t.root
  {
    forall i | 0 <= i < |t.pages[t.root].kids|
      ensures t.pages[t.root].kids[i] in t.pages && t.pages[t.root].kids[i] < TABLES_MAX_PAGES && t.pages[t.root].kids[i] != t.root
    {
      KidFacts(t, t.root, t.root, i);
    }
  }

  /** One non-root step of the ripple, on tree values: page q has been split onto page r, and
      its holder waits for the pair at index j. */
  lemma RippleStep(h: Heap, q: nat, t: Tree, r: nat, h': Heap, i: nat)
    requires Overfull(t, q) && Parented(t) && q in t.shape && q != t.root && PageOK(t, q, q) && t.pages[q].Internal?
    requires |t.pages[q].keys| == INTERNAL_NODE_MAX_KEYS + 1
    requires q in h && t.pages == h[q := t.pages[q]]
    requires 0 < r < TABLES_MAX_PAGES && r !in h
    requires h' == Reparent(h, t.pages[q].kids[INTERNAL_MID + 1..], r)[q := LeftHalf(t.pages[q])][r := RightHalf(t.pages[q])]
    requires t.shape[q].up in h && h[t.shape[q].up].Internal? && t.shape[q].up in t.shape && PageOK(t, q, t.shape[q].up)
    requires t.pages[t.shape[q].up] == h[t.shape[q].up]
    requires IsLowerBound(h[t.shape[q].up].keys, t.pages[q].keys[INTERNAL_MID], i)
    ensures InternalSplitReady(t, q, r, i) && i < |h[t.shape[q].up].kids| && h[t.shape[q].up].kids[i] == q
    ensures t.shape[q].up in h' && h'[t.shape[q].up] == h[t.shape[q].up]
    ensures var t' := InternalSplit(t, q, r, i); var u := t.shape[q].up; var m := t.pages[q].keys[INTERNAL_MID];
            && Overfull(t', u) && Parented(t') && SameLeaves(t, t') && u in t'.shape
            && t'.shape[u] == t.shape[u] && t'.shape[t.root] == t.shape[t.root]
            && t'.pages == h'[u := InsertKid(h'[u], i, m, q, r)]
            && (u != t.root ==> SplitPages(t', u, u) == SplitPages(t, q, u))
  {
    var u, m := t.shape[q].up, t.pages[q].keys[INTERNAL_MID];
    var moved := t.pages[q].kids[INTERNAL_MID + 1..];
    if r in t.shape { PageFacts(t, q, r); }
    HolderLevel(t, q, q);
    SlotAgreement(t, q, q, m, i);
    InternalSplitKeepsTree(t, q, r, i);
    InternalSplitParented(t, q, r, i);
    InternalSplitSameLeaves(t, q, r, i);
    ListedKids(t, q, q, moved);
    var t' := InternalSplit(t, q, r, i);
    assert t'.shape[u] == t.shape[u] && t'.shape[t.root] == t.shape[t.root];
    RippleHeap(h, q, t, r, h', i);
    if u != t.root {
      RippleStable(t, q, r, i);
    }
  }

  lemma RippleHeap(h: Heap, q: nat, t: Tree, r: nat, h': Heap, i: nat)
    requires InternalSplitReady(t, q, r, i) && q in h && t.pages == h[q := t.pages[q]] && r !in h
    requires h' == Reparent(h, t.pages[q].kids[INTERNAL_MID + 1..], r)[q := LeftHalf(t.pages[q])][r := RightHalf(t.pages[q])]
    ensures t.shape[q].up in h' && h'[t.shape[q].up] == t.pages[t.shape[q].up]
    ensures InternalSplit(t, q, r, i).pages
         == h'[t.shape[q].up := InsertKid(h'[t.shape[q].up], i, t.pages[q].keys[INTERNAL_MID], q, r)]
  {
    HolderLevel(t, q, q);
    ListedKids(t, q, q, t.pages[q].kids[INTERNAL_MID + 1..]);
    assert q !in t.pages[q].kids[INTERNAL_MID + 1..];
    assert t.shape[q].up !in t.pages[q].kids[INTERNAL_MID + 1..];
  }

  lemma RippleStable(t: Tree, q: nat, r: nat, i: nat)
    requires InternalSplitReady(t, q, r, i) && Overfull(InternalSplit(t, q, r, i), t.shape[q].up)
    ensures t.shape[q].up in InternalSplit(t, q, r, i).shape
    ensures SplitPages(InternalSplit(t, q, r, i), t.shape[q].up, t.shape[q].up) == SplitPages(t, q, t.shape[q].up)
  {
    var t', u := InternalSplit(t, q, r, i), t.shape[q].up;
    HolderLevel(t, q, q);
    ListedKids(t, q, q, t.pages[q].kids[INTERNAL_MID + 1..]);
    forall p | p in t.shape && t.shape[p].level > t.shape[u].level
      ensures p in t.pages && p in t'.shape && t'.shape[p] == t.shape[p] && p in t'.pages && t'.pages[p] == t.pages[p]
    {
      PageFacts(t, q, p);
    }
    SplitPagesStable(t, q, t', u, u);
  }

  /** `split_internal_node`: split page q, which is full, while giving it (newKey, left, right);
      the promoted separator may make the holder split in turn, up to the root. */
  method SplitInternalNode(pager: Pager, q: nat, newKey: Key, left: nat, right: nat, ghost j: nat, ghost t: Tree)
    returns (ok: bool, ghost t': Tree)
    requires SplitPending(pager, q, newKey, left, right, j, t)
    modifies pager`cache, pager`dirty, pager`numPages
    ensures old(pager.dirty) <= pager.dirty
    ensures pager.Valid()
    ensures ok <==> old(pager.numPages) + SplitPages(t, q, q) <= TABLES_MAX_PAGES
    ensures ok ==> pager.numPages == old(pager.numPages) + SplitPages(t, q, q)
    ensures ok ==> WellFormed(t') && Parented(t') && SameLeaves(t, t') && t'.pages == pager.Heap()
    ensures !ok ==> KeptOutside(old(pager.Heap()), pager.Heap(), t.shape.Keys)
    ensures ok && old(pager.Recoverable()) ==> pager.Recoverable()
    decreases t.shape[t.root].level - t.shape[q].level, 1
  {
    t' := t;
    var old_page := pager.cache[q];
    PageFacts(t, q, q);
    assert t.pages[q] == InsertKid(old_page, j, newKey, left, right);
    FoundInsertSlot(old_page, j, newKey, left, right, j);
    var c := InternalNodeFind(old_page, newKey);
    FoundInsertSlot(old_page, j, newKey, left, right, c);
    var temp := InsertKid(old_page, c, newKey, left, right);
    KidsStored(t, q);
    if old_page.isRoot {
      var a, b;
      ok, a, b := SplitRoot(pager, q, temp);
      if ok {
        t' := RootSplitDone(old(pager.Heap()), t, a, b);
      }
    } else {
      var r;
      ok, r := SplitOff(pager, q, temp);
      if ok {
        ok, t' := PromoteSeparator(pager, old_page.parent, temp.keys[INTERNAL_MID], q, r, old(pager.Heap()), t);
      }
    }
  }

  lemma RootSplitDone(h: Heap, t: Tree, a: nat, b: nat) returns (t': Tree)
    requires Overfull(t, t.root) && Parented(t) && PageOK(t, t.root, t.root) && t.pages[t.root].Internal?
    requires |t.pages[t.root].keys| == INTERNAL_NODE_MAX_KEYS + 1
    requires t.root in h && t.pages == h[t.root := t.pages[t.root]]
    requires 0 < a < TABLES_MAX_PAGES && 0 < b < TABLES_MAX_PAGES && a !in h && b !in h && a != b
    ensures WellFormed(t') && Parented(t') && SameLeaves(t, t')
    ensures t'.pages == RootSplitHeap(h, t.root, t.pages[t.root], a, b)
  {
    if a in t.shape { PageFacts(t, t.root, a); }
    if b in t.shape { PageFacts(t, t.root, b); }
    RootHeap(h, t, a, b);
    RootSplitKeepsTree(t, a, b);
    RootSplitParented(t, a, b);
    RootSplitSameLeaves(t, a, b);
    t' := RootSplit(t, a, b);
  }

  lemma KidsStored(t: Tree, q: nat)
    requires Overfull(t, q) && q in t.shape && PageOK(t, q, q) && t.pages[q].Internal?
    ensures forall i :: 0 <= i < |t.pages[q].kids| ==>
              t.pages[q].kids[i] in t.pages && t.pages[q].kids[i] < TABLES_MAX_PAGES && t.pages[q].kids[i] != q
  {
    forall i | 0 <= i < |t.pages[q].kids|
      ensures t.pages[q].kids[i] in t.pages && t.pages[q].kids[i] < TABLES_MAX_PAGES && t.pages[q].kids[i] != q
    {
      KidFacts(t, q, q, i);
    }
  }

  /** A ripple that fails further up has changed none but the tree's own pages. */
  lemma RippleKept(h: Heap, h1: Heap, h2: Heap, t: Tree, q: nat, r: nat, i: nat)
    requires InternalSplitReady(t, q, r, i) && r !in h
    requires h1 == Reparent(h, t.pages[q].kids[INTERNAL_MID + 1..], r)[q := LeftHalf(t.pages[q])][r := RightHalf(t.pages[q])]
    ensures KeptOutside(h1, h2, InternalSplit(t, q, r, i).shape.Keys) ==> KeptOutside(h, h2, t.shape.Keys)
  {
    ListedKids(t, q, q, t.pages[q].kids[INTERNAL_MID + 1..]);
    if KeptOutside(h1, h2, InternalSplit(t, q, r, i).shape.Keys) {
      forall p | p in h && p !in t.shape
        ensures p in h2 && h2[p] == h[p]
      {
        assert p in h1 && h1[p] == h[p] && p !in InternalSplit(t, q, r, i).shape;
      }
    }
  }

  /** The second half of a non-root split: hand the separator to the holder of q. */
  method PromoteSeparator(pager: Pager, u: nat, m: Key, q: nat, r: nat, ghost h: Heap, ghost t: Tree)
    returns (ok: bool, ghost t': Tree)
    requires pager.Valid() && 0 < r < TABLES_MAX_PAGES && r !in h && pager.numPages == r + 1
    requires Overfull(t, q) && Parented(t) && q in t.shape && q != t.root && PageOK(t, q, q) && t.pages[q].Internal?
    requires |t.pages[q].keys| == INTERNAL_NODE_MAX_KEYS + 1
    requires q in h && t.pages == h[q := t.pages[q]]
    requires u == t.shape[q].up && m == t.pages[q].keys[INTERNAL_MID]
    requires pager.Heap() == Reparent(h, t.pages[q].kids[INTERNAL_MID + 1..], r)[q := LeftHalf(t.pages[q])][r := RightHalf(t.pages[q])]
    modifies pager`cache, pager`dirty, pager`numPages
    ensures old(pager.dirty) <= pager.dirty
    ensures pager.Valid()
    ensures ok <==> r + SplitPages(t, q, q) <= TABLES_MAX_PAGES
    ensures ok ==> pager.numPages == r + SplitPages(t, q, q)
    ensures ok ==> WellFormed(t') && Parented(t') && SameLeaves(t, t') && t'.pages == pager.Heap()
    ensures !ok ==> KeptOutside(h, pager.Heap(), t.shape.Keys)
    ensures ok && old(pager.Recoverable()) ==> pager.Recoverable()
    decreases t.shape[t.root].level - t.shape[q].level, 0
  {
    t' := t;
    HolderLevel(t, q, q);
    KidsStored(t, q);
    ListedKids(t, q, q, t.pages[q].kids[INTERNAL_MID + 1..]);
    var holder := pager.Fetch(u);
    var i := InternalNodeFind(holder, m);
    RippleStep(h, q, t, r, pager.Heap(), i);
    ghost var t2 := InternalSplit(t, q, r, i);
    ghost var h1: Heap := pager.Heap();
    ok, t' := TakeSeparator(pager, u, m, q, r, i, t2);
    RippleEnds(h, h1, pager.Heap(), t, q, r, i, ok, t');
  }

  /** How the ripple ends: with a tree of the same leaves, or with none but the tree's own pages changed. */
  lemma RippleEnds(h: Heap, h1: Heap, h2: Heap, t: Tree, q: nat, r: nat, i: nat, ok: bool, t': Tree)
    requires InternalSplitReady(t, q, r, i) && r !in h && SameLeaves(t, InternalSplit(t, q, r, i))
    requires h1 == Reparent(h, t.pages[q].kids[INTERNAL_MID + 1..], r)[q := LeftHalf(t.pages[q])][r := RightHalf(t.pages[q])]
    requires if ok then SameLeaves(InternalSplit(t, q, r, i), t') else KeptOutside(h1, h2, InternalSplit(t, q, r, i).shape.Keys)
    ensures if ok then SameLeaves(t, t') else KeptOutside(h, h2, t.shape.Keys)
  {
    if ok {
      forall p | p in t.shape ensures p in t.pages { PageFacts(t, q, p); }
      SameLeavesTransitive(t, InternalSplit(t, q, r, i), t');
    } else {
      RippleKept(h, h1, h2, t, q, r, i);
    }
  }

  /** The holder of a page that has split takes its separator in, or splits in turn. */
  method TakeSeparator(pager: Pager, u: nat, m: Key, q: nat, r: nat, i: nat, ghost t2: Tree)
    returns (ok: bool, ghost t': Tree)
    requires pager.Valid() && u in pager.cache && pager.cache[u].Internal? && pager.numPages <= TABLES_MAX_PAGES
    requires |pager.cache[u].kids| == |pager.cache[u].keys| + 1 && i <= |pager.cache[u].keys| <= INTERNAL_NODE_MAX_KEYS
    requires Overfull(t2, u) && u in t2.shape && Parented(t2)
    requires t2.pages == pager.Heap()[u := InsertKid(pager.cache[u], i, m, q, r)]
    modifies pager`cache, pager`dirty, pager`numPages
    ensures old(pager.dirty) <= pager.dirty
    ensures pager.Valid()
    ensures var need := if |old(pager.cache[u]).keys| < INTERNAL_NODE_MAX_KEYS then 0 else SplitPages(t2, u, u);
            && (ok <==> old(pager.numPages) + need <= TABLES_MAX_PAGES)
            && (ok ==> pager.numPages == old(pager.numPages) + need)
    ensures ok ==> WellFormed(t') && Parented(t') && SameLeaves(t2, t') && t'.pages == pager.Heap()
    ensures |old(pager.cache[u]).keys| < INTERNAL_NODE_MAX_KEYS ==> t' == t2
    ensures !ok ==> KeptOutside(old(pager.Heap()), pager.Heap(), t2.shape.Keys)
    ensures ok && old(pager.Recoverable()) ==> pager.Recoverable()
    decreases t2.shape[t2.root].level - t2.shape[u].level, 2
  {
    var full := InternalNodeInsert(pager, u, i, m, q, r);
    if full {
      ok, t' := SplitInternalNode(pager, u, m, q, r, i, t2);
    } else {
      ok := true;
      PageFacts(t2, u, u);
      FitsAfterAll(t2, u);
      t' := t2;
      forall p | p in t2.shape ensures p in t2.pages { PageFacts(t2, u, p); }
      SameLeavesReflexive(t2);
    }
  }

  lemma SameLeavesReflexive(t: Tree)
    requires forall p :: p in t.shape ==> p in t.pages
    ensures SameLeaves(t, t)
  {
    forall p | p in t.pages
      ensures SamePage(t, t, p)
    {
      if p in t.shape && t.pages[p].Leaf? { assert t.pages[p] == SetParent(t.pages[p], t.pages[p].parent); }
    }
  }
}
