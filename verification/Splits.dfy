/** What a split does to the whole tree, as a step from one tree value to the next. */
module Splits {
  import opened Rows
  import opened Pages
  import opened Trees

  /** The heap after the listed pages' parent fields have been rewritten. */
  function Reparent(h: Heap, moved: seq<nat>, parent: nat): Heap {
    map p | p in h :: if p in moved then SetParent(h[p], parent) else h[p]
  }

  ghost function Rehang(g: Shape, moved: seq<nat>, up: nat): Shape {
    map p | p in g :: if p in moved then g[p].(up := up) else g[p]
  }

  /** Page q has become the pair (q, r), separated by m; its holder takes r in. The holder may
      now be one key too large. */
  lemma HolderAbsorbs(n: Page, g: Shape, g': Shape, root: nat, u: nat, j: nat, q: nat, r: nat, m: Key)
    requires n.Internal? && u in g && u in g' && g'[u] == g[u]
    requires InternalOK(n, g, root, u, INTERNAL_NODE_MAX_KEYS)
    requires j < |n.kids| && n.kids[j] == q && q in g && g[q].lo < m < g[q].hi
    requires forall i :: 0 <= i < |n.kids| && i != j ==> n.kids[i] in g && n.kids[i] in g' && g'[n.kids[i]] == g[n.kids[i]]
    requires q in g' && r in g' && r != root
    requires g'[q] == Span(g[q].lo, m, g[q].level, u)
    requires g'[r] == Span(m, g[q].hi, g[q].level, u)
    ensures InternalOK(InsertKid(n, j, m, q, r), g', root, u, INTERNAL_NODE_MAX_KEYS + 1)
  {
    var n' := InsertKid(n, j, m, q, r);
    SeparatorsAbsorb(n, g, root, u, j, q, r, m);
    forall i: nat | i < |n'.kids|
      ensures KidOK(n', g', root, u, i)
    {
      if i < j {
        assert KidOK(n, g, root, u, i);
      } else if i > j + 1 {
        assert KidOK(n, g, root, u, i - 1);
      }
    }
  }

  lemma SeparatorsAbsorb(n: Page, g: Shape, root: nat, u: nat, j: nat, q: nat, r: nat, m: Key)
    requires n.Internal? && u in g && InternalOK(n, g, root, u, INTERNAL_NODE_MAX_KEYS)
    requires j < |n.kids| && n.kids[j] == q && q in g && g[q].lo < m < g[q].hi
    ensures KidOK(n, g, root, u, j)
    ensures var keys := InsertKid(n, j, m, q, r).keys;
            Sorted(keys) && forall i :: 0 <= i < |keys| ==> g[u].lo < keys[i] < g[u].hi
  {
    assert KidOK(n, g, root, u, j);
  }

  /** The tree after leaf q has been split into L and R (on fresh page r). */
  ghost function LeafSplit(t: Tree, q: nat, r: nat, j: nat, m: Key, left: Page, right: Page): Tree
    requires q in t.shape && t.shape[q].up in t.pages
    requires t.pages[t.shape[q].up].Internal?
    requires j <= |t.pages[t.shape[q].up].keys| && |t.pages[t.shape[q].up].kids| == |t.pages[t.shape[q].up].keys| + 1
  {
    var s := t.shape[q];
    t.(pages := t.pages[r := right][q := left][s.up := InsertKid(t.pages[s.up], j, m, q, r)],
       shape := t.shape[q := Span(s.lo, m, s.level, s.up)][r := Span(m, s.hi, s.level, s.up)])
  }

  lemma LeafSplitKeepsTree(t: Tree, q: nat, r: nat, j: nat, m: Key, left: Page, right: Page)
    requires WellFormed(t) && q in t.shape && q != t.root && PageOK(t, 0, q) && t.pages[q].Leaf?
    requires 0 < r < TABLES_MAX_PAGES && r !in t.shape && r !in t.pages
    requires t.shape[q].lo < m < t.shape[q].hi
    requires PageOK(t, 0, t.shape[q].up) && j < |t.pages[t.shape[q].up].kids| && t.pages[t.shape[q].up].kids[j] == q
    requires left.Leaf? && !left.isRoot && left.next == r
    requires right.Leaf? && !right.isRoot && right.next == t.pages[q].next
    requires LeafOK(left, Span(t.shape[q].lo, m, 0, t.shape[q].up), t.cap)
    requires LeafOK(right, Span(m, t.shape[q].hi, 0, t.shape[q].up), t.cap)
    ensures Overfull(LeafSplit(t, q, r, j, m, left, right), t.shape[q].up)
  {
    var u := t.shape[q].up;
    var t' := LeafSplit(t, q, r, j, m, left, right);
    forall p | p in t'.shape
      ensures PageOK(t', u, p)
    {
      if p == q {
      } else if p == r {
      } else {
        PageFacts(t, 0, p);
        if p == u {
          HolderKidsStay(t, 0, q, j);
          HolderAbsorbs(t.pages[u], t.shape, t'.shape, t.root, u, j, q, r, m);
        } else if t.pages[p].Internal? {
          OtherKidsStay(t, 0, p, q, t'.shape);
        }
      }
    }
  }

  lemma HolderKidsStay(t: Tree, over: nat, q: nat, j: nat)
    requires Overfull(t, over) && q in t.shape && q != t.root && t.shape[q].up in t.shape
    requires PageOK(t, over, t.shape[q].up) && t.pages[t.shape[q].up].Internal?
    requires j < |t.pages[t.shape[q].up].kids| && t.pages[t.shape[q].up].kids[j] == q
    ensures forall i :: 0 <= i < |t.pages[t.shape[q].up].kids| && i != j ==>
              t.pages[t.shape[q].up].kids[i] in t.shape && t.pages[t.shape[q].up].kids[i] != q
              && t.shape[t.pages[t.shape[q].up].kids[i]].up == t.shape[q].up
  {
    var u := t.shape[q].up;
    forall i | 0 <= i < |t.pages[u].kids| && i != j
      ensures t.pages[u].kids[i] in t.shape && t.pages[u].kids[i] != q && t.shape[t.pages[u].kids[i]].up == u
    {
      KidFacts(t, over, u, i);
      if i < j { KidOrder(t, over, u, i, j); } else { KidOrder(t, over, u, j, i); }
    }
  }

  /** A node that does not hold q is untouched by changes at q. */
  lemma OtherKidsStay(t: Tree, over: nat, p: nat, q: nat, g': Shape)
    requires Overfull(t, over) && p in t.shape && PageOK(t, over, p) && t.pages[p].Internal?
    requires q in t.shape && t.shape[q].up != p
    requires p in g' && g'[p] == t.shape[p]
    requires forall c :: c in t.shape && c != q && t.shape[c].up == p ==> c in g' && g'[c] == t.shape[c]
    ensures InternalOK(t.pages[p], g', t.root, p, INTERNAL_NODE_MAX_KEYS + 1)
    ensures p != over ==> InternalOK(t.pages[p], g', t.root, p, INTERNAL_NODE_MAX_KEYS)
  {
    forall i: nat | i < |t.pages[p].kids|
      ensures KidOK(t.pages[p], g', t.root, p, i)
    {
      KidFacts(t, over, p, i);
    }
  }

  /** The tree after the overfull internal page q has been split, its right half on fresh page r. */
  ghost function InternalSplit(t: Tree, q: nat, r: nat, j: nat): Tree
    requires q in t.shape && q in t.pages && t.pages[q].Internal?
    requires |t.pages[q].keys| == INTERNAL_NODE_MAX_KEYS + 1 && |t.pages[q].kids| == |t.pages[q].keys| + 1
    requires t.shape[q].up in t.pages && t.pages[t.shape[q].up].Internal?
    requires j <= |t.pages[t.shape[q].up].keys| && |t.pages[t.shape[q].up].kids| == |t.pages[t.shape[q].up].keys| + 1
  {
    var n, s := t.pages[q], t.shape[q];
    var m := n.keys[INTERNAL_MID];
    var moved := n.kids[INTERNAL_MID + 1..];
    t.(pages := Reparent(t.pages, moved, r)[q := LeftHalf(n)][r := RightHalf(n)]
                [s.up := InsertKid(t.pages[s.up], j, m, q, r)],
       shape := Rehang(t.shape, moved, r)[q := Span(s.lo, m, s.level, s.up)][r := Span(m, s.hi, s.level, s.up)])
  }

  ghost predicate InternalSplitReady(t: Tree, q: nat, r: nat, j: nat) {
    && Overfull(t, q) && q in t.shape && q != t.root && PageOK(t, q, q) && t.pages[q].Internal?
    && |t.pages[q].keys| == INTERNAL_NODE_MAX_KEYS + 1
    && 0 < r < TABLES_MAX_PAGES && r !in t.shape && r !in t.pages
    && PageOK(t, q, t.shape[q].up) && t.pages[t.shape[q].up].Internal?
    && j < |t.pages[t.shape[q].up].kids| && t.pages[t.shape[q].up].kids[j] == q
  }

  lemma {:induction false} HalvesOK(n: Page, g: Shape, root: nat, q: nat, r: nat, g': Shape, a: nat, s: Span)
    requires n.Internal? && q in g && q != r
    requires InternalOK(n, g, root, q, INTERNAL_NODE_MAX_KEYS + 1) && |n.keys| == INTERNAL_NODE_MAX_KEYS + 1
    requires a in g' && r in g'
    requires s.level == g[q].level
    requires g'[a] == Span(g[q].lo, n.keys[INTERNAL_MID], s.level, s.up)
    requires g'[r] == Span(n.keys[INTERNAL_MID], g[q].hi, s.level, s.up)
    requires forall i :: 0 <= i < |n.kids| ==> n.kids[i] in g && n.kids[i] in g'
    requires forall i :: 0 <= i < |n.kids| ==> g'[n.kids[i]] == g[n.kids[i]].(up := if i <= INTERNAL_MID then a else r)
    ensures InternalOK(LeftHalf(n), g', root, a, INTERNAL_NODE_MAX_KEYS)
    ensures InternalOK(RightHalf(n), g', root, r, INTERNAL_NODE_MAX_KEYS)
  {
    var l, h := LeftHalf(n), RightHalf(n);
    forall i: nat | i < |l.kids|
      ensures KidOK(l, g', root, a, i)
    {
      assert KidOK(n, g, root, q, i);
    }
    forall i: nat | i < |h.kids|
      ensures KidOK(h, g', root, r, i)
    {
      assert KidOK(n, g, root, q, INTERNAL_MID + 1 + i);
    }
  }

  /** Kid i of the splitting page is among the moved kids exactly when i is past the middle. */
  lemma MovedKids(t: Tree, over: nat, q: nat, i: nat)
    requires Overfull(t, over) && q in t.shape && PageOK(t, over, q) && t.pages[q].Internal?
    requires |t.pages[q].keys| == INTERNAL_NODE_MAX_KEYS + 1 && i < |t.pages[q].kids|
    ensures t.pages[q].kids[i] in t.pages[q].kids[INTERNAL_MID + 1..] <==> i > INTERNAL_MID
    ensures t.pages[q].kids[i] in t.pages[q].kids[..INTERNAL_MID + 1] <==> i <= INTERNAL_MID
  {
    var kids := t.pages[q].kids;
    if i > INTERNAL_MID {
      assert kids[i] == kids[INTERNAL_MID + 1..][i - INTERNAL_MID - 1];
      forall x | 0 <= x < INTERNAL_MID + 1
        ensures kids[x] != kids[i]
      {
        KidOrder(t, over, q, x, i);
      }
    } else {
      assert kids[i] == kids[..INTERNAL_MID + 1][i];
      forall x | INTERNAL_MID + 1 <= x < |kids|
        ensures kids[x] != kids[i]
      {
        KidOrder(t, over, q, i, x);
      }
    }
  }

  /** Facts about every page in a list of q's kids. */
  lemma ListedKids(t: Tree, over: nat, q: nat, moved: seq<nat>)
    requires Overfull(t, over) && q in t.shape && PageOK(t, over, q) && t.pages[q].Internal?
    requires forall c :: c in moved ==> c in t.pages[q].kids
    ensures forall c :: c in moved ==>
              c in t.shape && c != t.root && PageOK(t, over, c) && t.shape[c].up == q && t.shape[c].level + 1 == t.shape[q].level
  {
    forall c | c in moved
      ensures c in t.shape && c != t.root && PageOK(t, over, c) && t.shape[c].up == q && t.shape[c].level + 1 == t.shape[q].level
    {
      var i: nat :| i < |t.pages[q].kids| && t.pages[q].kids[i] == c;
      KidFacts(t, over, q, i);
    }
  }

  lemma SplitKidsFollow(t: Tree, t': Tree, q: nat, r: nat, j: nat)
    requires InternalSplitReady(t, q, r, j) && t' == InternalSplit(t, q, r, j)
    ensures forall i :: 0 <= i < |t.pages[q].kids| ==> t.pages[q].kids[i] in t.shape && t.pages[q].kids[i] in t'.shape
    ensures forall i :: 0 <= i < |t.pages[q].kids| ==>
              t'.shape[t.pages[q].kids[i]] == t.shape[t.pages[q].kids[i]].(up := if i <= INTERNAL_MID then q else r)
  {
    var n := t.pages[q];
    ListedKids(t, q, q, n.kids[INTERNAL_MID + 1..]);
    HolderLevel(t, q, q);
    forall i | 0 <= i < |n.kids|
      ensures n.kids[i] in t.shape && n.kids[i] in t'.shape
           && t'.shape[n.kids[i]] == t.shape[n.kids[i]].(up := if i <= INTERNAL_MID then q else r)
    {
      KidFacts(t, q, q, i);
      MovedKids(t, q, q, i);
    }
  }

  lemma InternalSplitKeepsTree(t: Tree, q: nat, r: nat, j: nat)
    requires InternalSplitReady(t, q, r, j)
    ensures Overfull(InternalSplit(t, q, r, j), t.shape[q].up)
  {
    var n, u := t.pages[q], t.shape[q].up;
    var t' := InternalSplit(t, q, r, j);
    var moved := n.kids[INTERNAL_MID + 1..];
    ListedKids(t, q, q, moved);
    HolderLevel(t, q, q);
    HolderKidsStay(t, q, q, j);
    SplitKidsFollow(t, t', q, r, j);
    HalvesOK(n, t.shape, t.root, q, r, t'.shape, q, t.shape[q]);
    HolderAbsorbs(t.pages[u], t.shape, t'.shape, t.root, u, j, q, r, n.keys[INTERNAL_MID]);
    forall p | p in t'.shape
      ensures PageOK(t', u, p)
    {
      if p != r {
        PageFacts(t, q, p);
        if p in moved {
          MovedKidOK(t, t', q, r, j, p);
        } else if p != q && p != u {
          UnmovedOK(t, t', q, r, j, p);
        }
      } else {
        assert UpOK(t'.pages, t'.shape, r);
      }
    }
  }

  lemma HolderLevel(t: Tree, over: nat, q: nat)
    requires Overfull(t, over) && q in t.shape && q != t.root
    ensures t.shape[q].up in t.shape && t.shape[t.shape[q].up].level == t.shape[q].level + 1
    ensures PageOK(t, over, t.shape[q].up) && t.pages[t.shape[q].up].Internal?
  {
    var i := KidIndex(t, over, q);
  }

  lemma MovedKidOK(t: Tree, t': Tree, q: nat, r: nat, j: nat, p: nat)
    requires InternalSplitReady(t, q, r, j) && t' == InternalSplit(t, q, r, j)
    requires p in t.pages[q].kids[INTERNAL_MID + 1..] && p in t.shape && p != t.root && PageOK(t, q, p)
    requires t.shape[p].up == q && t.shape[p].level + 1 == t.shape[q].level
    ensures PageOK(t', t.shape[q].up, p)
  {
    HolderLevel(t, q, q);
    assert t'.shape[p] == t.shape[p].(up := r);
    assert t'.pages[r] == RightHalf(t.pages[q]);
    assert UpOK(t'.pages, t'.shape, p);
    if t.pages[p].Internal? {
      GrandkidsStay(t, t', q, r, j, p);
      SameKids(t.pages[p], t'.pages[p], t'.shape, t.root, p, INTERNAL_NODE_MAX_KEYS);
    } else {
      LinkStays(t, t', q, r, j, p);
    }
  }

  /** Only keys and kids matter to an internal node's place in the tree. */
  lemma SameKids(n: Page, n': Page, g: Shape, root: nat, p: nat, limit: nat)
    requires n.Internal? && n'.Internal? && n.keys == n'.keys && n.kids == n'.kids && p in g
    requires InternalOK(n, g, root, p, limit)
    ensures InternalOK(n', g, root, p, limit)
  {
    forall i: nat | i < |n'.kids|
      ensures KidOK(n', g, root, p, i)
    {
      assert KidOK(n, g, root, p, i);
    }
  }

  lemma GrandkidsStay(t: Tree, t': Tree, q: nat, r: nat, j: nat, p: nat)
    requires InternalSplitReady(t, q, r, j) && t' == InternalSplit(t, q, r, j)
    requires p in t.shape && PageOK(t, q, p) && t.pages[p].Internal? && p != q && p != t.shape[q].up
    ensures InternalOK(t.pages[p], t'.shape, t.root, p, INTERNAL_NODE_MAX_KEYS)
  {
    ListedKids(t, q, q, t.pages[q].kids[INTERNAL_MID + 1..]);
    forall i: nat | i < |t.pages[p].kids|
      ensures KidOK(t.pages[p], t'.shape, t.root, p, i)
    {
      KidFacts(t, q, p, i);
    }
  }

  lemma LinkStays(t: Tree, t': Tree, q: nat, r: nat, j: nat, p: nat)
    requires InternalSplitReady(t, q, r, j) && t' == InternalSplit(t, q, r, j)
    requires p in t.shape && PageOK(t, q, p) && t.pages[p].Leaf?
    ensures LinkOK(t'.pages, t'.shape, t.pages[p].next, t.shape[p].hi)
  {
  }

  lemma UnmovedOK(t: Tree, t': Tree, q: nat, r: nat, j: nat, p: nat)
    requires InternalSplitReady(t, q, r, j) && t' == InternalSplit(t, q, r, j)
    requires p in t.shape && PageOK(t, q, p) && p !in t.pages[q].kids[INTERNAL_MID + 1..] && p != q && p != t.shape[q].up
    ensures PageOK(t', t.shape[q].up, p)
  {
    if p != t.root {
      UpStays(t, t', q, r, j, p);
    }
    if t.pages[p].Internal? {
      GrandkidsStay(t, t', q, r, j, p);
    } else {
      LinkStays(t, t', q, r, j, p);
    }
  }

  lemma UpStays(t: Tree, t': Tree, q: nat, r: nat, j: nat, p: nat)
    requires InternalSplitReady(t, q, r, j) && t' == InternalSplit(t, q, r, j)
    requires p in t.shape && PageOK(t, q, p) && p !in t.pages[q].kids[INTERNAL_MID + 1..] && p != q && p != t.root
    ensures UpOK(t'.pages, t'.shape, p)
  {
    HolderLevel(t, q, q);
    var i := KidIndex(t, q, p);
    if t.shape[p].up == q {
      MovedKids(t, q, q, i);
      assert t'.shape[p] == t.shape[p];
      ListedAt(t'.pages, t'.shape, p, i);
    } else {
      UpStaysElsewhere(t, t', q, r, j, p, i);
    }
  }

  lemma UpStaysElsewhere(t: Tree, t': Tree, q: nat, r: nat, j: nat, p: nat, i: nat)
    requires InternalSplitReady(t, q, r, j) && t' == InternalSplit(t, q, r, j)
    requires p in t.shape && p !in t.pages[q].kids[INTERNAL_MID + 1..] && p != q && p != r
    requires t.shape[p].up in t.shape && t.shape[p].up in t.pages && t.shape[p].up != q && t.pages[t.shape[p].up].Internal?
    requires i < |t.pages[t.shape[p].up].kids| && t.pages[t.shape[p].up].kids[i] == p
    ensures UpOK(t'.pages, t'.shape, p)
  {
    assert t'.shape[p].up == t.shape[p].up;
    ListedAt(t'.pages, t'.shape, p, if t.shape[p].up == t.shape[q].up && i >= j then i + 1 else i);
  }

  lemma ListedAt(h: Heap, g: Shape, p: nat, i: nat)
    requires p in g && g[p].up in g && g[p].up in h && h[g[p].up].Internal?
    requires i < |h[g[p].up].kids| && h[g[p].up].kids[i] == p
    ensures UpOK(h, g, p)
  {
  }

  /** The tree after the overfull internal root has been split into fresh pages a and b. */
  ghost function RootSplit(t: Tree, a: nat, b: nat): Tree
    requires t.root in t.shape && t.root in t.pages && t.pages[t.root].Internal?
    requires |t.pages[t.root].keys| == INTERNAL_NODE_MAX_KEYS + 1
    requires |t.pages[t.root].kids| == |t.pages[t.root].keys| + 1
  {
    var n, s := t.pages[t.root], t.shape[t.root];
    var m := n.keys[INTERNAL_MID];
    var lower, upper := n.kids[..INTERNAL_MID + 1], n.kids[INTERNAL_MID + 1..];
    t.(pages := Reparent(Reparent(t.pages, lower, a), upper, b)
                [a := SetParent(LeftHalf(n), t.root)][b := SetParent(RightHalf(n), t.root)]
                [t.root := Internal(true, n.parent, [m], [a, b])],
       shape := Rehang(Rehang(t.shape, lower, a), upper, b)
                [a := Span(s.lo, m, s.level, t.root)][b := Span(m, s.hi, s.level, t.root)]
                [t.root := s.(level := s.level + 1)])
  }

  ghost predicate RootSplitReady(t: Tree, a: nat, b: nat) {
    && Overfull(t, t.root) && PageOK(t, t.root, t.root) && t.pages[t.root].Internal?
    && |t.pages[t.root].keys| == INTERNAL_NODE_MAX_KEYS + 1
    && 0 < a < TABLES_MAX_PAGES && a !in t.shape && a !in t.pages
    && 0 < b < TABLES_MAX_PAGES && b !in t.shape && b !in t.pages
    && a != b
  }

  lemma RootKids(t: Tree, t': Tree, a: nat, b: nat)
    requires RootSplitReady(t, a, b) && t' == RootSplit(t, a, b)
    ensures forall i :: 0 <= i < |t.pages[t.root].kids| ==>
              t.pages[t.root].kids[i] in t.shape && t.pages[t.root].kids[i] in t'.shape
    ensures forall i :: 0 <= i < |t.pages[t.root].kids| ==>
              t'.shape[t.pages[t.root].kids[i]] == t.shape[t.pages[t.root].kids[i]].(up := if i <= INTERNAL_MID then a else b)
  {
    var kids := t.pages[t.root].kids;
    forall i | 0 <= i < |kids|
      ensures kids[i] in t.shape && kids[i] in t'.shape
      ensures t'.shape[kids[i]] == t.shape[kids[i]].(up := if i <= INTERNAL_MID then a else b)
    {
      KidFacts(t, t.root, t.root, i);
      MovedKids(t, t.root, t.root, i);
    }
  }

  lemma RootSplitKeepsTree(t: Tree, a: nat, b: nat)
    requires RootSplitReady(t, a, b)
    ensures WellFormed(RootSplit(t, a, b))
  {
    var n := t.pages[t.root];
    var t' := RootSplit(t, a, b);
    RootKids(t, t', a, b);
    HalvesOK(n, t.shape, t.root, t.root, b, t'.shape, a, t.shape[t.root].(up := t.root));
    SameKids(LeftHalf(n), t'.pages[a], t'.shape, t.root, a, INTERNAL_NODE_MAX_KEYS);
    SameKids(RightHalf(n), t'.pages[b], t'.shape, t.root, b, INTERNAL_NODE_MAX_KEYS);
    var n' := t'.pages[t.root];
    forall i: nat | i < |n'.kids|
      ensures KidOK(n', t'.shape, t.root, t.root, i)
    {
    }
    forall p | p in t'.shape
      ensures PageOK(t', 0, p)
    {
      if p == a {
        assert t'.pages[t.root].kids[0] == p;
      } else if p == b {
        assert t'.pages[t.root].kids[1] == p;
      } else if p != t.root {
        PageBelowRootSplit(t, t', a, b, p);
      }
    }
  }

  lemma PageBelowRootSplit(t: Tree, t': Tree, a: nat, b: nat, p: nat)
    requires RootSplitReady(t, a, b) && t' == RootSplit(t, a, b)
    requires p in t.shape && p != t.root
    requires forall i :: 0 <= i < |t.pages[t.root].kids| ==>
              t.pages[t.root].kids[i] in t.shape && t.pages[t.root].kids[i] in t'.shape
    requires forall i :: 0 <= i < |t.pages[t.root].kids| ==>
              t'.shape[t.pages[t.root].kids[i]] == t.shape[t.pages[t.root].kids[i]].(up := if i <= INTERNAL_MID then a else b)
    ensures PageOK(t', 0, p)
  {
    PageFacts(t, t.root, p);
    ListedKids(t, t.root, t.root, t.pages[t.root].kids[..INTERNAL_MID + 1]);
    ListedKids(t, t.root, t.root, t.pages[t.root].kids[INTERNAL_MID + 1..]);
    UpBelowRootSplit(t, t', a, b, p);
    if t.pages[p].Internal? {
      NodeBelowRootSplit(t, t', a, b, p);
    }
  }

  lemma NodeBelowRootSplit(t: Tree, t': Tree, a: nat, b: nat, p: nat)
    requires RootSplitReady(t, a, b) && t' == RootSplit(t, a, b)
    requires p in t.shape && p != t.root && PageOK(t, t.root, p) && t.pages[p].Internal?
    ensures p in t'.shape && p in t'.pages && t'.pages[p].Internal?
    ensures InternalOK(t'.pages[p], t'.shape, t.root, p, INTERNAL_NODE_MAX_KEYS)
  {
    ListedKids(t, t.root, t.root, t.pages[t.root].kids[..INTERNAL_MID + 1]);
    ListedKids(t, t.root, t.root, t.pages[t.root].kids[INTERNAL_MID + 1..]);
    forall i: nat | i < |t'.pages[p].kids|
      ensures KidOK(t'.pages[p], t'.shape, t.root, p, i)
    {
      KidFacts(t, t.root, p, i);
    }
  }

  lemma UpBelowRootSplit(t: Tree, t': Tree, a: nat, b: nat, p: nat)
    requires RootSplitReady(t, a, b) && t' == RootSplit(t, a, b)
    requires p in t.shape && p != t.root
    requires forall i :: 0 <= i < |t.pages[t.root].kids| ==>
              t.pages[t.root].kids[i] in t.shape && t.pages[t.root].kids[i] in t'.shape
    requires forall i :: 0 <= i < |t.pages[t.root].kids| ==>
              t'.shape[t.pages[t.root].kids[i]] == t.shape[t.pages[t.root].kids[i]].(up := if i <= INTERNAL_MID then a else b)
    ensures p in t'.shape && UpOK(t'.pages, t'.shape, p)
  {
    var i := KidIndex(t, t.root, p);
    if t.shape[p].up == t.root {
      if i <= INTERNAL_MID {
        assert t'.pages[a].kids[i] == p;
      } else {
        assert t'.pages[b].kids[i - INTERNAL_MID - 1] == p;
      }
    } else {
      assert t'.pages[t.shape[p].up].kids[i] == p;
    }
  }

  /** The tree after its only page, a full leaf, has been split into fresh pages a and b. */
  ghost function LeafRootSplit(t: Tree, a: nat, b: nat, m: Key, left: Page, right: Page): Tree
    requires t.root in t.shape && t.root in t.pages && t.pages[t.root].Leaf?
  {
    t.(pages := t.pages[b := right][a := left][t.root := Internal(true, t.pages[t.root].parent, [m], [a, b])],
       shape := t.shape[a := Span(KEY_MIN, m, 0, t.root)][b := Span(m, KEY_END, 0, t.root)]
                [t.root := t.shape[t.root].(level := 1)])
  }

  /** A tree whose root is a leaf has no other page. */
  lemma LoneLeaf(t: Tree, p: nat)
    requires WellFormed(t) && PageOK(t, 0, t.root) && t.pages[t.root].Leaf? && p in t.shape
    ensures p == t.root
  {
    PageFacts(t, 0, p);
  }

  lemma LeafRootSplitKeepsTree(t: Tree, a: nat, b: nat, m: Key, left: Page, right: Page)
    requires WellFormed(t) && PageOK(t, 0, t.root) && t.pages[t.root].Leaf?
    requires 0 < a < TABLES_MAX_PAGES && a !in t.shape && a !in t.pages
    requires 0 < b < TABLES_MAX_PAGES && b !in t.shape && b !in t.pages && a != b
    requires KEY_MIN < m
    requires left.Leaf? && !left.isRoot && left.next == b
    requires right.Leaf? && !right.isRoot && right.next == 0
    requires LeafOK(left, Span(KEY_MIN, m, 0, t.root), t.cap)
    requires LeafOK(right, Span(m, KEY_END, 0, t.root), t.cap)
    ensures WellFormed(LeafRootSplit(t, a, b, m, left, right))
  {
    var t' := LeafRootSplit(t, a, b, m, left, right);
    var n' := t'.pages[t.root];
    forall i: nat | i < |n'.kids|
      ensures KidOK(n', t'.shape, t.root, t.root, i)
    {
    }
    forall p | p in t'.shape
      ensures PageOK(t', 0, p)
    {
      if p == a {
        assert n'.kids[0] == p;
      } else if p == b {
        assert n'.kids[1] == p;
      } else {
        LoneLeaf(t, p);
      }
    }
  }

  // Parent fields

  lemma LeafSplitParented(t: Tree, q: nat, r: nat, j: nat, m: Key, left: Page, right: Page)
    requires WellFormed(t) && Parented(t) && q in t.shape && q != t.root && PageOK(t, 0, q) && t.pages[q].Leaf?
    requires r !in t.shape && r !in t.pages
    requires PageOK(t, 0, t.shape[q].up) && j < |t.pages[t.shape[q].up].kids|
    requires left.Leaf? && left.parent == t.pages[q].parent
    requires right.Leaf? && right.parent == t.pages[q].parent
    ensures Parented(LeafSplit(t, q, r, j, m, left, right))
  {
    var t' := LeafSplit(t, q, r, j, m, left, right);
    assert ParentOK(t, q);
    forall p | p in t'.shape && p in t'.pages
      ensures ParentOK(t', p)
    {
      if p != r { PageFacts(t, 0, p); assert ParentOK(t, p); }
    }
  }

  lemma InternalSplitParented(t: Tree, q: nat, r: nat, j: nat)
    requires InternalSplitReady(t, q, r, j) && Parented(t)
    ensures Parented(InternalSplit(t, q, r, j))
  {
    var t' := InternalSplit(t, q, r, j);
    ListedKids(t, q, q, t.pages[q].kids[INTERNAL_MID + 1..]);
    HolderLevel(t, q, q);
    assert ParentOK(t, q);
    forall p | p in t'.shape && p in t'.pages
      ensures ParentOK(t', p)
    {
      if p != r { PageFacts(t, q, p); assert ParentOK(t, p); }
    }
  }

  lemma RootSplitParented(t: Tree, a: nat, b: nat)
    requires RootSplitReady(t, a, b) && Parented(t)
    ensures Parented(RootSplit(t, a, b))
  {
    var t' := RootSplit(t, a, b);
    forall p | p in t'.shape && p in t'.pages
      ensures ParentOK(t', p)
    {
      if p != a && p != b { PageFacts(t, t.root, p); assert ParentOK(t, p); }
    }
  }

  // What a split leaves alone

  /** What a ripple of internal splits may do to a page that existed before. */
  ghost predicate SamePage(t: Tree, t': Tree, p: nat)
    requires p in t.pages
  {
    && p in t'.pages
    && (p !in t.shape ==> t'.pages[p] == t.pages[p])
    && (p in t.shape ==> p in t'.shape)
    && (p in t.shape && t.pages[p].Internal? ==> t'.pages[p].Internal?)
    && (p in t.shape && t.pages[p].Leaf? ==>
          && t'.pages[p].Leaf?
          && t'.pages[p] == SetParent(t.pages[p], t'.pages[p].parent)
          && t'.shape[p].lo == t.shape[p].lo && t'.shape[p].hi == t.shape[p].hi)
  }

  /** From t to t' only internal nodes were added, and leaves changed at most their parent field;
      pages outside the tree are as they were, and every new page belongs to the tree. */
  ghost predicate SameLeaves(t: Tree, t': Tree) {
    && t'.root == t.root && t'.cap == t.cap
    && (forall p {:trigger SamePage(t, t', p)} :: p in t.pages ==> SamePage(t, t', p))
    && (forall p :: p in t'.pages && p !in t.pages ==> p in t'.shape)
    && (forall p :: p in t'.shape && p !in t.shape ==> p !in t.pages && p in t'.pages && t'.pages[p].Internal?)
  }

  lemma SameLeavesTransitive(t: Tree, t': Tree, t'': Tree)
    requires SameLeaves(t, t') && SameLeaves(t', t'')
    requires t.shape.Keys <= t.pages.Keys
    ensures SameLeaves(t, t'')
  {
    forall p | p in t.pages
      ensures SamePage(t, t'', p)
    {
      assert SamePage(t, t', p) && SamePage(t', t'', p);
    }
    forall p | p in t''.shape && p !in t.shape
      ensures p !in t.pages && p in t''.pages && t''.pages[p].Internal?
    {
      if p in t'.shape { assert SamePage(t', t'', p); }
      assert p in t.pages ==> SamePage(t, t', p);
    }
    forall p | p in t''.pages && p !in t.pages
      ensures p in t''.shape
    {
      if p in t'.pages { assert SamePage(t', t'', p); }
    }
  }

  lemma SameLeavesSameCells(t: Tree, t': Tree)
    requires SameLeaves(t, t')
    requires forall p :: p in t.shape ==> p in t.pages && !t.pages[p].Catalog?
    ensures CellSet(t') == CellSet(t) && AllSlots(t') <= AllSlots(t)
  {
    forall p | p in t.shape
      ensures p in t'.shape && p in t'.pages && Cells(t'.pages[p]) == Cells(t.pages[p])
      ensures t.pages[p].Leaf? ==> t'.pages[p].Leaf? && t'.pages[p].slots == t.pages[p].slots
      ensures t'.pages[p].Leaf? ==> t.pages[p].Leaf?
    {
      assert SamePage(t, t', p);
    }
    forall p | p in t'.shape && p !in t.shape
      ensures p in t'.pages && Cells(t'.pages[p]) == []
    {
    }
    forall c
      ensures c in CellSet(t) <==> c in CellSet(t')
    {
      if c in CellSet(t) {
        var p :| p in t.shape && p in t.pages && c in Cells(t.pages[p]);
        assert c in Cells(t'.pages[p]);
      }
    }
  }

  lemma InternalSplitSameLeaves(t: Tree, q: nat, r: nat, j: nat)
    requires InternalSplitReady(t, q, r, j)
    ensures SameLeaves(t, InternalSplit(t, q, r, j))
  {
    var t' := InternalSplit(t, q, r, j);
    HolderLevel(t, q, q);
    ListedKids(t, q, q, t.pages[q].kids[INTERNAL_MID + 1..]);
    forall p | p in t.pages
      ensures SamePage(t, t', p)
    {
    }
  }

  lemma RootSplitSameLeaves(t: Tree, a: nat, b: nat)
    requires RootSplitReady(t, a, b)
    ensures SameLeaves(t, RootSplit(t, a, b))
  {
    var t' := RootSplit(t, a, b);
    ListedKids(t, t.root, t.root, t.pages[t.root].kids[..INTERNAL_MID + 1]);
    ListedKids(t, t.root, t.root, t.pages[t.root].kids[INTERNAL_MID + 1..]);
    forall p | p in t.pages
      ensures SamePage(t, t', p)
    {
    }
  }
}
