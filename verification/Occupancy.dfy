/** How full the nodes are, and what that means under the 20000-page limit. */
module Occupancy {
  import opened Rows
  import opened Pages
  import opened Trees
  import opened Splits
  import opened Chains
  import opened Inserts
  import opened LeafInserts

  /** The least number of leaves below a non-root page of this level. */
  function MinLeaves(level: nat): nat {
    if level == 0 then 1 else (MIN_KEYS + 1) * MinLeaves(level - 1)
  }

  lemma {:induction false} KidLeavesCount(t: Tree, p: nat, i: nat)
    requires WellFormed(t) && p in t.shape && PageOK(t, 0, p) && t.pages[p].Internal?
    requires i <= |t.pages[p].kids|
    ensures |KidLeaves(t, p, i)| >= (|t.pages[p].kids| - i) * MinLeaves(t.shape[p].level - 1)
    decreases t.shape[p].level, 0, |t.pages[p].kids| - i
  {
    if i < |t.pages[p].kids| {
      KidFacts(t, 0, p, i);
      LeavesCount(t, t.pages[p].kids[i]);
      KidLeavesCount(t, p, i + 1);
      OneMore(|t.pages[p].kids| - i - 1, MinLeaves(t.shape[p].level - 1));
    }
  }

  lemma OneMore(n: nat, m: nat)
    ensures (n + 1) * m == n * m + m
  {
  }

  /** Every non-root node of level n has at least 171^n leaves below it. */
  lemma {:induction false} LeavesCount(t: Tree, p: nat)
    requires WellFormed(t) && p in t.shape && p != t.root
    ensures |Leaves(t, p)| >= MinLeaves(t.shape[p].level)
    decreases t.shape[p].level, 1, 0
  {
    LeafLevel(t, 0, p);
    if t.pages[p].Internal? {
      KidLeavesCount(t, p, 0);
      Scale(|t.pages[p].kids|, MIN_KEYS + 1, MinLeaves(t.shape[p].level - 1));
    }
  }

  lemma Scale(a: nat, b: nat, m: nat)
    requires a >= b
    ensures a * m >= b * m
  {
  }

  lemma {:induction false} BoundedSet(s: set<nat>, n: nat)
    requires forall x :: x in s ==> x < n
    ensures |s| <= n
    decreases n
  {
    if n == 0 {
      assert s == {};
    } else {
      BoundedSet(s - {n - 1}, n - 1);
    }
  }

  function Elements(s: seq<nat>): set<nat> { set p | p in s }

  lemma {:induction false} DistinctCount(s: seq<nat>)
    requires forall i, j :: 0 <= i < j < |s| ==> s[i] != s[j]
    ensures |Elements(s)| == |s|
  {
    if s == [] {
      assert Elements(s) == {};
    } else {
      var front, x := s[..|s| - 1], s[|s| - 1];
      DistinctCount(front);
      assert s == front + [x];
      assert x !in front;
      assert Elements(s) == Elements(front) + {x};
    }
  }

  /** There are fewer leaves than page numbers. */
  lemma LeavesBound(t: Tree)
    requires WellFormed(t)
    ensures |Leaves(t, t.root)| < TABLES_MAX_PAGES
  {
    var s := Leaves(t, t.root);
    ChainVisitsLeavesInOrder(t);
    DistinctCount(s);
    var pages := Elements(s);
    forall p | p in pages
      ensures 0 < p < TABLES_MAX_PAGES
    {
      PageFacts(t, 0, p);
    }
    assert 0 !in pages;
    BoundedSet(pages + {0}, TABLES_MAX_PAGES);
  }

  /** No table ever has more than three levels. */
  lemma HeightBound(t: Tree)
    requires WellFormed(t)
    ensures t.shape[t.root].level <= 2
  {
    PageFacts(t, 0, t.root);
    LeavesBound(t);
    var level := t.shape[t.root].level;
    if level > 2 {
      KidLeavesCount(t, t.root, 0);
      MinLeavesMonotone(2, level - 1);
      assert MinLeaves(2) == 171 * (171 * MinLeaves(0)) == 29241;
      assert |t.pages[t.root].kids| >= 2;
      ScaleBoth(|t.pages[t.root].kids|, 2, MinLeaves(level - 1), 29241);
    }
  }

  lemma {:induction false} MinLeavesMonotone(a: nat, b: nat)
    requires a <= b
    ensures MinLeaves(a) <= MinLeaves(b)
    decreases b
  {
    if a < b {
      MinLeavesMonotone(a, b - 1);
    }
  }

  lemma ScaleBoth(a: nat, b: nat, m: nat, n: nat)
    requires a >= b && m >= n
    ensures a * m >= b * n
  {
    assert a * m >= b * m >= b * n;
  }

  /** The holder of a non-root internal node always has room for one more separator, so the ripple
      of splits stops there: the recursive call of `split_internal_node` is never reached. */
  lemma HolderHasRoom(t: Tree, q: nat)
    requires WellFormed(t) && q in t.shape && q != t.root && PageOK(t, 0, q) && t.pages[q].Internal?
    ensures t.shape[q].up == t.root
    ensures PageOK(t, 0, t.root) && t.pages[t.root].Internal? && |t.pages[t.root].keys| < INTERNAL_NODE_MAX_KEYS
    ensures SplitPages(t, 0, q) == 1
  {
    PageFacts(t, 0, t.root);
    HeightBound(t);
    HolderLevel(t, 0, q);
    PageFacts(t, 0, t.shape[q].up);
    LeavesBound(t);
    KidLeavesCount(t, t.root, 0);
    assert MinLeaves(1) == 171 * MinLeaves(0) == 171;
    var kids := |t.pages[t.root].kids|;
    assert kids * 171 < TABLES_MAX_PAGES;
  }

  /** One INSERT never allocates more than three pages. */
  lemma InsertNeedsAtMostThreePages(t: Tree, key: Key)
    requires WellFormed(t)
    ensures InsertPages(t, key) <= 3
  {
    PageFacts(t, 0, t.root);
    var leaf := LeafFor(t, 0, t.root, key);
    if leaf != t.root {
      HolderLevel(t, 0, leaf);
      var u := t.shape[leaf].up;
      assert SplitPages(t, 0, leaf) <= 1 + SplitPages(t, 0, u);
      if u != t.root {
        PageFacts(t, 0, u);
        HolderHasRoom(t, u);
      }
    }
  }

  /** While fewer than 343 page numbers are in use, no INSERT splits an internal page: its holder would have
      to hold 341 other pages. */
  lemma FewPagesSplitNoHolder(t: Tree, key: Key, numPages: nat)
    requires WellFormed(t) && numPages < INTERNAL_NODE_MAX_KEYS + 3
    requires forall p :: p in t.shape ==> p < numPages
    ensures SplitsNoHolder(t, key)
  {
    PageFacts(t, 0, t.root);
    var leaf := LeafFor(t, 0, t.root, key);
    if leaf != t.root {
      var i := KidIndex(t, 0, leaf);
      var u := t.shape[leaf].up;
      var kids := t.pages[u].kids;
      forall x | 0 <= x < |kids|
        ensures kids[x] in t.shape && kids[x] != u && kids[x] != 0
      {
        KidFacts(t, 0, u, x);
      }
      forall x, y | 0 <= x < y < |kids|
        ensures kids[x] != kids[y]
      {
        KidFacts(t, 0, u, x);
        KidFacts(t, 0, u, y);
        KidOrder(t, 0, u, x, y);
      }
      DistinctCount(kids);
      var all := Elements(kids) + {u} + {0};
      BoundedSet(all, numPages);
      assert |all| == |kids| + 2;
    }
  }
}
