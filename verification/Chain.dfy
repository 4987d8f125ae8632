/** The next-leaf chain, and the order in which it presents the stored cells. */
module Chains {
  import opened Rows
  import opened Pages
  import opened Trees

  /** The leaves below page p, left to right. */
  ghost function Leaves(t: Tree, p: nat): seq<nat>
    requires WellFormed(t) && p in t.shape
    decreases t.shape[p].level, 1, 0
  {
    PageFacts(t, 0, p);
    if t.pages[p].Leaf? then [p] else KidLeaves(t, p, 0)
  }

  ghost function KidLeaves(t: Tree, p: nat, i: nat): seq<nat>
    requires WellFormed(t) && p in t.shape && PageOK(t, 0, p) && t.pages[p].Internal?
    requires i <= |t.pages[p].kids|
    decreases t.shape[p].level, 0, |t.pages[p].kids| - i
  {
    if i == |t.pages[p].kids| then []
    else
      KidFacts(t, 0, p, i);
      Leaves(t, t.pages[p].kids[i]) + KidLeaves(t, p, i + 1)
  }

  /** The leaves a walk along the next-leaf links visits, starting at leaf p. */
  ghost function Chain(t: Tree, p: nat): seq<nat>
    requires WellFormed(t) && p in t.shape && p in t.pages && t.pages[p].Leaf?
    decreases KEY_END - t.shape[p].lo
  {
    PageFacts(t, 0, p);
    if t.pages[p].next == 0 then [p]
    else
      PageFacts(t, 0, t.pages[p].next);
      [p] + Chain(t, t.pages[p].next)
  }

  /** The leaf reached by always taking the first child. */
  ghost function Leftmost(t: Tree, p: nat): (leaf: nat)
    requires WellFormed(t) && p in t.shape
    ensures leaf in t.shape && leaf in t.pages && t.pages[leaf].Leaf?
    ensures t.shape[leaf].lo == t.shape[p].lo
    decreases t.shape[p].level
  {
    PageFacts(t, 0, p);
    if t.pages[p].Leaf? then p
    else
      KidFacts(t, 0, p, 0);
      Leftmost(t, t.pages[p].kids[0])
  }

  /** A run of leaves whose intervals tile [lo, hi). */
  ghost predicate Tiles(t: Tree, s: seq<nat>, lo: int, hi: int) {
    && |s| > 0
    && (forall i :: 0 <= i < |s| ==> s[i] in t.shape && s[i] in t.pages && t.pages[s[i]].Leaf?)
    && t.shape[s[0]].lo == lo
    && t.shape[s[|s| - 1]].hi == hi
    && (forall i :: 0 <= i < |s| - 1 ==> t.shape[s[i]].hi == t.shape[s[i + 1]].lo)
  }

  lemma TilesConcat(t: Tree, a: seq<nat>, b: seq<nat>, lo: int, mid: int, hi: int)
    requires Tiles(t, a, lo, mid) && Tiles(t, b, mid, hi)
    ensures Tiles(t, a + b, lo, hi)
  {
    var s := a + b;
    forall i | 0 <= i < |s| - 1
      ensures t.shape[s[i]].hi == t.shape[s[i + 1]].lo
    {
      if i < |a| - 1 {
        assert s[i] == a[i] && s[i + 1] == a[i + 1];
      } else if i >= |a| {
        assert s[i] == b[i - |a|] && s[i + 1] == b[i - |a| + 1];
      }
    }
  }

  lemma {:induction false} LeavesTile(t: Tree, p: nat)
    requires WellFormed(t) && p in t.shape
    ensures Tiles(t, Leaves(t, p), t.shape[p].lo, t.shape[p].hi)
    decreases t.shape[p].level, 1, 0
  {
    PageFacts(t, 0, p);
    if !t.pages[p].Leaf? {
      KidFacts(t, 0, p, 0);
      KidLeavesTile(t, p, 0);
    }
  }

  lemma {:induction false} KidLeavesTile(t: Tree, p: nat, i: nat)
    requires WellFormed(t) && p in t.shape && PageOK(t, 0, p) && t.pages[p].Internal?
    requires i < |t.pages[p].kids|
    ensures Tiles(t, KidLeaves(t, p, i), LowOf(t.shape[p], t.pages[p].keys, i), t.shape[p].hi)
    decreases t.shape[p].level, 0, |t.pages[p].kids| - i
  {
    KidFacts(t, 0, p, i);
    var kid := t.pages[p].kids[i];
    LeavesTile(t, kid);
    if i + 1 < |t.pages[p].kids| {
      KidLeavesTile(t, p, i + 1);
      TilesConcat(t, Leaves(t, kid), KidLeaves(t, p, i + 1), t.shape[kid].lo, t.shape[kid].hi, t.shape[p].hi);
    } else {
      assert KidLeaves(t, p, i + 1) == [];
      assert KidLeaves(t, p, i) == Leaves(t, kid);
    }
  }

  /** Along a tiling the intervals only move right, so no leaf occurs twice. */
  lemma {:induction false} TilesIncrease(t: Tree, s: seq<nat>, lo: int, hi: int, i: nat, j: nat)
    requires WellFormed(t) && Tiles(t, s, lo, hi) && i < j < |s|
    ensures t.shape[s[i]].hi <= t.shape[s[j]].lo && s[i] != s[j]
    decreases j
  {
    PageFacts(t, 0, s[i]);
    if i + 1 < j {
      TilesIncrease(t, s, lo, hi, i, j - 1);
      PageFacts(t, 0, s[j - 1]);
    }
  }

  /** A tiling misses no key. */
  lemma {:induction false} TilesCover(t: Tree, s: seq<nat>, lo: int, hi: int, k: int) returns (i: nat)
    requires Tiles(t, s, lo, hi) && lo <= k < hi
    ensures i < |s| && t.shape[s[i]].lo <= k < t.shape[s[i]].hi
    decreases |s|
  {
    if k < t.shape[s[0]].hi {
      i := 0;
    } else {
      assert |s| > 1;
      assert Tiles(t, s[1..], t.shape[s[1]].lo, hi);
      i := TilesCover(t, s[1..], t.shape[s[1]].lo, hi, k);
      i := i + 1;
    }
  }

  lemma RootTiles(t: Tree)
    requires WellFormed(t)
    ensures Tiles(t, Leaves(t, t.root), KEY_MIN, KEY_END)
  {
    PageFacts(t, 0, t.root);
    LeavesTile(t, t.root);
  }

  /** Each link leads to the next leaf in order, and the last leaf links to page 0. */
  lemma LinkFollowsOrder(t: Tree, i: nat)
    requires WellFormed(t) && i < |Leaves(t, t.root)|
    ensures var s := Leaves(t, t.root);
            s[i] in t.shape && s[i] in t.pages && t.pages[s[i]].Leaf? && s[i] != 0 && s[i] < TABLES_MAX_PAGES &&
            t.pages[s[i]].next == if i + 1 < |s| then s[i + 1] else 0
  {
    var s := Leaves(t, t.root);
    RootTiles(t);
    PageFacts(t, 0, s[i]);
    if i + 1 < |s| {
      PageFacts(t, 0, s[i + 1]);
      PageFacts(t, 0, t.pages[s[i]].next);
      SameLevelDisjoint(t, 0, t.pages[s[i]].next, s[i + 1], t.shape[s[i + 1]].lo);
    } else if t.pages[s[i]].next != 0 {
      PageFacts(t, 0, t.pages[s[i]].next);
    }
  }

  lemma {:induction false} ChainFrom(t: Tree, i: nat)
    requires WellFormed(t) && i < |Leaves(t, t.root)|
    ensures var s := Leaves(t, t.root);
            s[i] in t.shape && s[i] in t.pages && t.pages[s[i]].Leaf? && Chain(t, s[i]) == s[i..]
    decreases |Leaves(t, t.root)| - i
  {
    LinkFollowsOrder(t, i);
    var s := Leaves(t, t.root);
    PageFacts(t, 0, s[i]);
    if i + 1 < |s| {
      ChainFrom(t, i + 1);
      PageFacts(t, 0, s[i + 1]);
      assert s[i..] == [s[i]] + s[i + 1..];
    } else {
      assert s[i..] == [s[i]];
    }
  }

  lemma {:induction false} LeftmostIsFirst(t: Tree, p: nat)
    requires WellFormed(t) && p in t.shape
    ensures |Leaves(t, p)| > 0 && Leaves(t, p)[0] == Leftmost(t, p)
    decreases t.shape[p].level
  {
    LeavesTile(t, p);
    PageFacts(t, 0, p);
    if !t.pages[p].Leaf? {
      KidFacts(t, 0, p, 0);
      LeftmostIsFirst(t, t.pages[p].kids[0]);
    }
  }

  /** Main result on the chain: walking it from the leftmost leaf visits exactly the leaves of the
      tree, each once, from left to right. */
  lemma ChainVisitsLeavesInOrder(t: Tree)
    requires WellFormed(t)
    ensures Chain(t, Leftmost(t, t.root)) == Leaves(t, t.root)
    ensures forall i, j :: 0 <= i < j < |Leaves(t, t.root)| ==> Leaves(t, t.root)[i] != Leaves(t, t.root)[j]
    ensures forall p :: p in Leaves(t, t.root) <==> p in t.shape && p in t.pages && t.pages[p].Leaf?
  {
    var s := Leaves(t, t.root);
    LeftmostIsFirst(t, t.root);
    ChainFrom(t, 0);
    RootTiles(t);
    forall i, j | 0 <= i < j < |s|
      ensures s[i] != s[j]
    {
      TilesIncrease(t, s, KEY_MIN, KEY_END, i, j);
    }
    forall p | p in t.shape && p in t.pages && t.pages[p].Leaf?
      ensures p in s
    {
      PageFacts(t, 0, p);
      var i := TilesCover(t, s, KEY_MIN, KEY_END, t.shape[p].lo);
      PageFacts(t, 0, s[i]);
      SameLevelDisjoint(t, 0, p, s[i], t.shape[p].lo);
    }
  }

  // The stored cells in order

  ghost function CellsAlong(h: Heap, s: seq<nat>): seq<Cell>
    requires forall p :: p in s ==> p in h
  {
    if s == [] then [] else Cells(h[s[0]]) + CellsAlong(h, s[1..])
  }

  /** Every stored cell, in the order of the chain. */
  ghost function InOrder(t: Tree): seq<Cell>
    requires WellFormed(t)
  {
    RootTiles(t);
    CellsAlong(t.pages, Leaves(t, t.root))
  }

  lemma {:induction false} CellsAlongMembers(h: Heap, s: seq<nat>, c: Cell)
    requires forall p :: p in s ==> p in h
    ensures c in CellsAlong(h, s) <==> exists p :: p in s && c in Cells(h[p])
  {
    if s != [] {
      CellsAlongMembers(h, s[1..], c);
      assert forall p :: p in s <==> p == s[0] || p in s[1..];
    }
  }

  lemma {:induction false} CellsAlongSorted(t: Tree, s: seq<nat>, lo: int, hi: int)
    requires WellFormed(t) && Tiles(t, s, lo, hi)
    ensures SortedCells(CellsAlong(t.pages, s))
    ensures forall c :: c in CellsAlong(t.pages, s) ==> lo <= c.key < hi
    decreases |s|
  {
    PageFacts(t, 0, s[0]);
    var first := Cells(t.pages[s[0]]);
    assert forall c :: c in first ==> lo <= c.key < t.shape[s[0]].hi;
    if |s| > 1 {
      assert Tiles(t, s[1..], t.shape[s[1]].lo, hi);
      CellsAlongSorted(t, s[1..], t.shape[s[1]].lo, hi);
      var rest := CellsAlong(t.pages, s[1..]);
      PageFacts(t, 0, s[1]);
      TilesIncrease(t, s, lo, hi, 0, 1);
      TilesEnd(t, s, lo, hi);
      SortedConcat(first, rest, t.shape[s[0]].hi);
    } else {
      assert CellsAlong(t.pages, s[1..]) == [];
      assert CellsAlong(t.pages, s) == first;
    }
  }

  lemma TilesEnd(t: Tree, s: seq<nat>, lo: int, hi: int)
    requires WellFormed(t) && Tiles(t, s, lo, hi)
    ensures t.shape[s[0]].hi <= hi
  {
    if |s| > 1 {
      TilesIncrease(t, s, lo, hi, 0, |s| - 1);
      PageFacts(t, 0, s[|s| - 1]);
    }
  }

  lemma SortedConcat(a: seq<Cell>, b: seq<Cell>, m: int)
    requires SortedCells(a) && SortedCells(b)
    requires forall c :: c in a ==> c.key < m
    requires forall c :: c in b ==> m <= c.key
    ensures SortedCells(a + b)
  {
    forall i, j | 0 <= i < j < |a + b|
      ensures (a + b)[i].key < (a + b)[j].key
    {
      if i < |a| { assert a[i] in a; }
      if j >= |a| { assert b[j - |a|] in b; }
    }
  }

  /** The chain presents every stored cell once, in strictly increasing key order. */
  lemma InOrderEnumerates(t: Tree)
    requires WellFormed(t)
    ensures SortedCells(InOrder(t))
    ensures forall c :: c in InOrder(t) <==> c in CellSet(t)
  {
    RootTiles(t);
    CellsAlongSorted(t, Leaves(t, t.root), KEY_MIN, KEY_END);
    ChainVisitsLeavesInOrder(t);
    forall c
      ensures c in InOrder(t) <==> c in CellSet(t)
    {
      CellsAlongMembers(t.pages, Leaves(t, t.root), c);
      if c in CellSet(t) {
        var p :| p in t.shape && p in t.pages && c in Cells(t.pages[p]);
        PageFacts(t, 0, p);
        assert p in Leaves(t, t.root);
      }
    }
  }

  /** A strictly sorted enumeration of a set of cells is determined by the set. */
  lemma {:induction false} SortedEnumerationUnique(a: seq<Cell>, b: seq<Cell>)
    requires SortedCells(a) && SortedCells(b)
    requires forall c :: c in a <==> c in b
    ensures a == b
    decreases |a|
  {
    assert b != [] ==> b[0] in b;
    if a != [] {
      assert a[0] in b;
      assert b[0] in a;
      assert a[0] == b[0];
      forall c
        ensures c in a[1..] <==> c in b[1..]
      {
        TailMembers(a, c);
        TailMembers(b, c);
      }
      SortedEnumerationUnique(a[1..], b[1..]);
      assert a == [a[0]] + a[1..] && b == [b[0]] + b[1..];
    }
  }

  lemma TailMembers(a: seq<Cell>, c: Cell)
    requires SortedCells(a) && a != []
    ensures c in a[1..] <==> c in a && c != a[0]
  {
    assert a == [a[0]] + a[1..];
    if c in a[1..] {
      var i :| 0 <= i < |a[1..]| && a[1..][i] == c;
      assert a[0].key < a[i + 1].key;
    }
  }
}
