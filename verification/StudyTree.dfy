/** The in-memory study B-tree of `tests/Btree.c`: keys in every node, splits from the bottom up. */
module StudyTrees {
  import opened Rows
  import opened Pages

  const ORDER: nat := 5
  const MAX_KEYS: nat := ORDER - 1
  const MIN_NODE_KEYS: nat := (ORDER - 1) / 2
  /** The index of the key a split promotes. */
  const MID: nat := ORDER / 2

  const NO_KEYS: seq<Key> := [0, 0, 0, 0, 0]
  const NO_CHILDREN: seq<Node?> := [null, null, null, null, null, null]

  class Node {
    var numKeys: nat
    var keys: seq<Key>
    var children: seq<Node?>
    var parent: Node?
    var isLeaf: bool

    /** `node_create`. */
    constructor (leaf: bool)
      ensures Built() && numKeys == 0 && keys == NO_KEYS && children == NO_CHILDREN && parent == null && isLeaf == leaf
    {
      numKeys, keys, children := 0, NO_KEYS, NO_CHILDREN;
      parent, isLeaf := null, leaf;
    }

    /** The node's arrays have one slot more than a legal node fills, and a leaf has no children. */
    predicate Built()
      reads this
    {
      |keys| == MAX_KEYS + 1 && |children| == ORDER + 1 && numKeys <= MAX_KEYS + 1 && (isLeaf ==> children == NO_CHILDREN)
    }

    function Contents(): Item
      requires Built()
      reads this
    {
      Item(keys[..numKeys], if isLeaf then [] else children[..numKeys + 1], parent)
    }
  }

  /** The live part of a node. */
  datatype Item = Item(keys: seq<Key>, kids: seq<Node?>, parent: Node?)

  /** The open interval a node owns and its height above the leaves. */
  datatype Range = Range(lo: int, hi: int, level: nat)

  datatype Tree = Tree(nodes: map<Node?, Item>, ranges: map<Node?, Range>, root: Node?)

  const WHOLE_LO: int := KEY_MIN - 1

  ghost function LowOf(s: Range, keys: seq<Key>, i: nat): int
    requires i <= |keys|
  {
    if i == 0 then s.lo else keys[i - 1]
  }

  ghost function HighOf(s: Range, keys: seq<Key>, i: nat): int
    requires i <= |keys|
  {
    if i == |keys| then s.hi else keys[i]
  }

  /** Kid i of p owns the interval between keys i-1 and i, one level down, and points back at p. */
  ghost predicate KidOK(t: Tree, p: Node?, i: nat)
    requires p in t.nodes && p in t.ranges && |t.nodes[p].kids| == |t.nodes[p].keys| + 1 && i < |t.nodes[p].kids|
  {
    var n, kid := t.nodes[p], t.nodes[p].kids[i];
    && kid in t.nodes && kid in t.ranges && kid != t.root && t.nodes[kid].parent == p
    && t.ranges[p].level > 0
    && t.ranges[kid] == Range(LowOf(t.ranges[p], n.keys, i), HighOf(t.ranges[p], n.keys, i), t.ranges[p].level - 1)
  }

  ghost predicate ParentOK(t: Tree, p: Node?)
    requires p in t.nodes && p in t.ranges && t.root in t.ranges
  {
    var u := t.nodes[p].parent;
    if p == t.root then u == null && t.ranges[p].lo == WHOLE_LO && t.ranges[p].hi == KEY_END
    else u in t.nodes && u in t.ranges && p in t.nodes[u].kids && t.ranges[p].level < t.ranges[t.root].level
  }

  /** A legal node; node `over` may hold one key too many. */
  ghost predicate NodeOK(t: Tree, over: Node?, p: Node?)
    requires t.root in t.ranges && p in t.ranges
  {
    && p != null && p in t.nodes
    && ParentOK(t, p)
    && |t.nodes[p].keys| <= (if p == over then MAX_KEYS + 1 else MAX_KEYS)
    && (p != t.root ==> MIN_NODE_KEYS <= |t.nodes[p].keys|)
    && Sorted(t.nodes[p].keys)
    && (forall i :: 0 <= i < |t.nodes[p].keys| ==> t.ranges[p].lo < t.nodes[p].keys[i] < t.ranges[p].hi)
    && (t.ranges[p].level == 0 <==> t.nodes[p].kids == [])
    && (t.ranges[p].level > 0 ==> |t.nodes[p].kids| == |t.nodes[p].keys| + 1)
    && (t.ranges[p].level > 0 ==> forall i: nat {:trigger KidOK(t, p, i)} :: i < |t.nodes[p].kids| ==> KidOK(t, p, i))
  }

  ghost predicate Overfull(t: Tree, over: Node?) {
    t.root in t.ranges && forall p {:trigger NodeOK(t, over, p)} :: p in t.ranges ==> NodeOK(t, over, p)
  }

  /** Uniform depth, legal key counts, sorted keys, intervals, and correct parent pointers everywhere. */
  ghost predicate WellFormed(t: Tree) { Overfull(t, null) && RootOK(t) }

  /** An internal root has a key. */
  ghost predicate RootOK(t: Tree) {
    t.root in t.nodes && (t.nodes[t.root].kids != [] ==> t.nodes[t.root].keys != [])
  }

  ghost function KeySet(t: Tree): set<Key> {
    set p, k | p in t.ranges && p in t.nodes && k in t.nodes[p].keys :: k
  }

  lemma Facts(t: Tree, over: Node?, p: Node?)
    requires Overfull(t, over) && p in t.ranges
    ensures NodeOK(t, over, p)
  {
  }

  lemma KidFacts(t: Tree, over: Node?, p: Node?, i: nat)
    requires Overfull(t, over) && p in t.ranges && NodeOK(t, over, p) && i < |t.nodes[p].kids|
    ensures t.ranges[p].level > 0 && KidOK(t, p, i) && NodeOK(t, over, t.nodes[p].kids[i])
  {
    assert KidOK(t, p, i);
  }

  ghost function KidIndex(t: Tree, over: Node?, p: Node?): (i: nat)
    requires Overfull(t, over) && p in t.ranges && NodeOK(t, over, p) && p != t.root
    ensures var u := t.nodes[p].parent;
            u in t.ranges && NodeOK(t, over, u) && i < |t.nodes[u].kids| && t.nodes[u].kids[i] == p
            && t.ranges[u].level > 0 && KidOK(t, u, i)
  {
    var u := t.nodes[p].parent;
    Facts(t, over, u);
    var i: nat :| i < |t.nodes[u].kids| && t.nodes[u].kids[i] == p;
    KidFacts(t, over, u, i);
    i
  }

  /** Two nodes of one level own disjoint intervals. */
  lemma {:induction false} SameLevelDisjoint(t: Tree, over: Node?, p: Node?, q: Node?, k: int)
    requires Overfull(t, over) && p in t.ranges && q in t.ranges && t.ranges[p].level == t.ranges[q].level
    requires t.ranges[p].lo < k < t.ranges[p].hi && t.ranges[q].lo < k < t.ranges[q].hi
    ensures p == q
    decreases t.ranges[t.root].level - t.ranges[p].level
  {
    Facts(t, over, p);
    Facts(t, over, q);
    if p != t.root && q != t.root {
      var i, j := KidIndex(t, over, p), KidIndex(t, over, q);
      var u, w := t.nodes[p].parent, t.nodes[q].parent;
      KidInside(t, over, u, i);
      KidInside(t, over, w, j);
      SameLevelDisjoint(t, over, u, w, k);
      if i < j {
        KidOrder(t, over, u, i, j);
      } else if j < i {
        KidOrder(t, over, u, j, i);
      }
    }
  }

  lemma KidOrder(t: Tree, over: Node?, p: Node?, i: nat, j: nat)
    requires Overfull(t, over) && p in t.ranges && NodeOK(t, over, p) && t.ranges[p].level > 0
    requires i < j < |t.nodes[p].kids|
    ensures HighOf(t.ranges[p], t.nodes[p].keys, i) <= LowOf(t.ranges[p], t.nodes[p].keys, j)
  {
  }

  lemma KidInside(t: Tree, over: Node?, p: Node?, i: nat)
    requires Overfull(t, over) && p in t.ranges && NodeOK(t, over, p) && i < |t.nodes[p].kids|
    ensures t.ranges[p].level > 0 && KidOK(t, p, i)
    ensures t.ranges[p].lo <= LowOf(t.ranges[p], t.nodes[p].keys, i)
    ensures HighOf(t.ranges[p], t.nodes[p].keys, i) <= t.ranges[p].hi
    ensures t.ranges[p].level <= t.ranges[t.root].level
  {
    KidFacts(t, over, p, i);
  }

  /** Keys at one level: only the node that owns k can hold it. */
  lemma OnlyOwnerHolds(t: Tree, over: Node?, p: Node?, q: Node?, k: Key)
    requires Overfull(t, over) && p in t.ranges && q in t.ranges && t.ranges[p].level == t.ranges[q].level
    requires t.ranges[p].lo < k < t.ranges[p].hi && q in t.nodes && k in t.nodes[q].keys
    ensures p == q
  {
    Facts(t, over, q);
    SameLevelDisjoint(t, over, p, q, k);
  }

  // Splits

  function LeftPart(n: Item): Item
    requires |n.keys| == MAX_KEYS + 1 && (n.kids == [] || |n.kids| == |n.keys| + 1)
  {
    n.(keys := n.keys[..MID], kids := if n.kids == [] then [] else n.kids[..MID + 1])
  }

  function RightPart(n: Item): Item
    requires |n.keys| == MAX_KEYS + 1 && (n.kids == [] || |n.kids| == |n.keys| + 1)
  {
    n.(keys := n.keys[MID + 1..], kids := if n.kids == [] then [] else n.kids[MID + 1..])
  }

  /** `node_insert_at` position j: a key and, to its right, a child. */
  function WithKey(n: Item, j: nat, key: Key, right: Node?): Item
    requires j <= |n.keys| && (n.kids == [] || |n.kids| == |n.keys| + 1)
  {
    n.(keys := n.keys[..j] + [key] + n.keys[j..],
       kids := if n.kids == [] then [] else n.kids[..j + 1] + [right] + n.kids[j + 1..])
  }

  lemma WithKeyAt(n: Item, j: nat, key: Key, right: Node?, i: nat)
    requires j <= |n.keys| && |n.kids| == |n.keys| + 1 && i <= |n.kids|
    ensures var r := WithKey(n, j, key, right);
            && |r.keys| == |n.keys| + 1 && |r.kids| == |r.keys| + 1
            && r.kids[i] == (if i <= j then n.kids[i] else if i == j + 1 then right else n.kids[i - 1])
            && (i < |r.keys| ==> r.keys[i] == if i < j then n.keys[i] else if i == j then key else n.keys[i - 1])
            && (i > 0 ==> r.keys[i - 1] == if i - 1 < j then n.keys[i - 1] else if i - 1 == j then key else n.keys[i - 2])
  {
  }

  /** A key inserted at its place keeps the keys sorted and inside the interval. */
  lemma WithKeySorted(n: Item, j: nat, key: Key, right: Node?, lo: int, hi: int)
    requires j <= |n.keys| && (n.kids == [] || |n.kids| == |n.keys| + 1)
    requires Sorted(n.keys) && (forall i :: 0 <= i < |n.keys| ==> lo < n.keys[i] < hi) && lo < key < hi
    requires (j > 0 ==> n.keys[j - 1] < key) && (j < |n.keys| ==> key < n.keys[j])
    ensures var r := WithKey(n, j, key, right);
            Sorted(r.keys) && forall i :: 0 <= i < |r.keys| ==> lo < r.keys[i] < hi
  {
    SplicedSorted(n.keys, j, key, lo, hi);
  }

  lemma SplicedSorted(keys: seq<Key>, j: nat, key: Key, lo: int, hi: int)
    requires j <= |keys| && Sorted(keys) && (forall i :: 0 <= i < |keys| ==> lo < keys[i] < hi) && lo < key < hi
    requires (j > 0 ==> keys[j - 1] < key) && (j < |keys| ==> key < keys[j])
    ensures var r := keys[..j] + [key] + keys[j..];
            Sorted(r) && forall i :: 0 <= i < |r| ==> lo < r[i] < hi
  {
    var r := keys[..j] + [key] + keys[j..];
    forall a | 0 <= a < |r|
      ensures lo < r[a] < hi
    {
      SplicedAt(keys, j, key, a);
    }
    forall a, b | 0 <= a < b < |r|
      ensures r[a] < r[b]
    {
      SplicedAt(keys, j, key, a);
      SplicedAt(keys, j, key, b);
      assert a < j ==> keys[a] <= keys[j - 1];
      assert b > j ==> keys[j] <= keys[b - 1];
    }
  }

  lemma SplicedAt(keys: seq<Key>, j: nat, key: Key, i: nat)
    requires j <= |keys| && i <= |keys|
    ensures (keys[..j] + [key] + keys[j..])[i] == if i < j then keys[i] else if i == j then key else keys[i - 1]
  {
  }

  lemma WithKeyHolds(n: Item, j: nat, key: Key, right: Node?, i: nat)
    requires j <= |n.keys| && |n.kids| == |n.keys| + 1 && i < |n.kids|
    ensures n.kids[i] in WithKey(n, j, key, right).kids && right in WithKey(n, j, key, right).kids
  {
    WithKeyAt(n, j, key, right, if i <= j then i else i + 1);
    WithKeyAt(n, j, key, right, j + 1);
  }

  ghost predicate SplitReady(t: Tree, n: Node?, r: Node?) {
    && Overfull(t, n) && n in t.ranges && NodeOK(t, n, n) && |t.nodes[n].keys| == MAX_KEYS + 1
    && r != null && r !in t.ranges && r !in t.nodes
  }

  /** Node m after n has split in two and its parent u has taken the promoted key. */
  ghost function SplitItem(t: Tree, n: Node?, r: Node?, j: nat, m: Node?): Item
    requires SplitReady(t, n, r) && n != t.root
    requires NodeOK(t, n, t.nodes[n].parent) && j < |t.nodes[t.nodes[n].parent].kids|
    requires m in t.nodes
  {
    var x, u := t.nodes[n], t.nodes[n].parent;
    if m == n then LeftPart(x)
    else if m == u then WithKey(t.nodes[u], j, x.keys[MID], r)
    else if m in RightPart(x).kids then t.nodes[m].(parent := r)
    else t.nodes[m]
  }

  ghost function SplitTree(t: Tree, n: Node?, r: Node?, j: nat): Tree
    requires SplitReady(t, n, r) && n != t.root
    requires NodeOK(t, n, t.nodes[n].parent) && j < |t.nodes[t.nodes[n].parent].kids|
  {
    var x, s := t.nodes[n], t.ranges[n];
    Tree((map m | m in t.nodes :: SplitItem(t, n, r, j, m))[r := RightPart(x)],
         t.ranges[n := s.(hi := x.keys[MID])][r := s.(lo := x.keys[MID])],
         t.root)
  }

  /** A new root q above the old one, still without keys. */
  ghost function Raised(t: Tree, q: Node?): Tree
    requires t.root in t.nodes && t.root in t.ranges
  {
    Tree(t.nodes[t.root := t.nodes[t.root].(parent := q)][q := Item([], [t.root], null)],
         t.ranges[q := Range(WHOLE_LO, KEY_END, t.ranges[t.root].level + 1)],
         q)
  }

  /** Facts about the neighbourhood of a splitting node. */
  lemma SplitPlace(t: Tree, n: Node?, r: Node?, j: nat)
    requires SplitReady(t, n, r) && n != t.root
    requires NodeOK(t, n, t.nodes[n].parent) && j < |t.nodes[t.nodes[n].parent].kids|
    requires t.nodes[t.nodes[n].parent].kids[j] == n
    ensures var x, u := t.nodes[n], t.nodes[n].parent;
            && u in t.ranges && u != n && u !in x.kids && n !in x.kids && r !in x.kids
            && KidOK(t, u, j) && t.ranges[u].level == t.ranges[n].level + 1
            && (forall kid :: kid in x.kids ==> kid in t.nodes && kid in t.ranges && t.nodes[kid].parent == n)
            && (forall i, k :: 0 <= i < k < |x.kids| ==> x.kids[i] != x.kids[k])
            && (forall i :: 0 <= i < |t.nodes[u].kids| && i != j ==> t.nodes[u].kids[i] != n)
  {
    var x, u := t.nodes[n], t.nodes[n].parent;
    KidFacts(t, n, u, j);
    forall kid | kid in x.kids
      ensures kid in t.nodes && kid in t.ranges && t.nodes[kid].parent == n && t.ranges[kid].level < t.ranges[n].level
    {
      var i :| 0 <= i < |x.kids| && x.kids[i] == kid;
      KidFacts(t, n, n, i);
    }
    forall i, k | 0 <= i < k < |x.kids|
      ensures x.kids[i] != x.kids[k]
    {
      KidsDiffer(t, n, n, i, k);
    }
    forall i | 0 <= i < |t.nodes[u].kids| && i != j
      ensures t.nodes[u].kids[i] != n
    {
      KidsDiffer(t, n, u, if i < j then i else j, if i < j then j else i);
    }
  }

  lemma KidsDiffer(t: Tree, over: Node?, p: Node?, i: nat, k: nat)
    requires Overfull(t, over) && p in t.ranges && NodeOK(t, over, p) && t.ranges[p].level > 0
    requires i < k < |t.nodes[p].kids|
    ensures t.nodes[p].kids[i] != t.nodes[p].kids[k]
  {
    KidFacts(t, over, p, i);
    KidFacts(t, over, p, k);
    assert LowOf(t.ranges[p], t.nodes[p].keys, i) < HighOf(t.ranges[p], t.nodes[p].keys, i);
  }

  ghost predicate SplitAt(t: Tree, t': Tree, n: Node?, r: Node?, j: nat) {
    && SplitReady(t, n, r) && n != t.root
    && NodeOK(t, n, t.nodes[n].parent) && j < |t.nodes[t.nodes[n].parent].kids|
    && t.nodes[t.nodes[n].parent].kids[j] == n
    && t' == SplitTree(t, n, r, j)
  }

  /** Node p away from the split keeps its kids' side of the bargain. */
  lemma KidStays(t: Tree, t': Tree, n: Node?, r: Node?, j: nat, p: Node?, i: nat)
    requires SplitAt(t, t', n, r, j) && p in t.ranges && NodeOK(t, n, p) && p != n && p != t.nodes[n].parent
    requires t.ranges[p].level > 0 && i < |t.nodes[p].kids|
    ensures p in t'.nodes && t'.nodes[p].kids == t.nodes[p].kids && t'.nodes[p].keys == t.nodes[p].keys && KidOK(t', p, i)
  {
    SplitPlace(t, n, r, j);
    KidFacts(t, n, p, i);
  }

  /** The halves' own keys, and that their parent holds them. */
  lemma Halves(t: Tree, t': Tree, n: Node?, r: Node?, j: nat)
    requires SplitAt(t, t', n, r, j)
    ensures n in t'.nodes && r in t'.nodes && t'.nodes[n] == LeftPart(t.nodes[n]) && t'.nodes[r] == RightPart(t.nodes[n])
    ensures n in t'.ranges && r in t'.ranges && t'.root in t'.ranges && ParentOK(t', n) && ParentOK(t', r)
  {
    SplitPlace(t, n, r, j);
    var u := t.nodes[n].parent;
    WithKeyHolds(t.nodes[u], j, t.nodes[n].keys[MID], r, j);
    Facts(t, n, u);
  }

  /** Kid i of the node that split belongs to one of the halves. */
  lemma HalfKid(t: Tree, t': Tree, n: Node?, r: Node?, j: nat, i: nat)
    requires SplitAt(t, t', n, r, j) && t.ranges[n].level > 0 && i < |t.nodes[n].kids|
    requires n in t'.nodes && r in t'.nodes && t'.nodes[n] == LeftPart(t.nodes[n]) && t'.nodes[r] == RightPart(t.nodes[n])
    requires n in t'.ranges && r in t'.ranges
    ensures if i <= MID then KidOK(t', n, i) else KidOK(t', r, i - MID - 1)
  {
    SplitPlace(t, n, r, j);
    KidFacts(t, n, n, i);
    var x := t.nodes[n];
    assert i > MID ==> x.kids[i] == RightPart(x).kids[i - MID - 1] && x.kids[i] in RightPart(x).kids;
    assert i <= MID ==> x.kids[i] == LeftPart(x).kids[i] && x.kids[i] !in RightPart(x).kids;
  }

  lemma SplitLeft(t: Tree, t': Tree, n: Node?, r: Node?, j: nat)
    requires SplitAt(t, t', n, r, j)
    ensures NodeOK(t', t.nodes[n].parent, n)
  {
    SplitPlace(t, n, r, j);
    Halves(t, t', n, r, j);
    forall i: nat | t.ranges[n].level > 0 && i <= MID
      ensures KidOK(t', n, i)
    {
      HalfKid(t, t', n, r, j, i);
    }
  }

  lemma SplitRight(t: Tree, t': Tree, n: Node?, r: Node?, j: nat)
    requires SplitAt(t, t', n, r, j)
    ensures NodeOK(t', t.nodes[n].parent, r)
  {
    SplitPlace(t, n, r, j);
    Halves(t, t', n, r, j);
    forall i: nat | t.ranges[n].level > 0 && i <= MID
      ensures KidOK(t', r, i)
    {
      HalfKid(t, t', n, r, j, MID + 1 + i);
    }
  }

  lemma HolderKeys(t: Tree, t': Tree, n: Node?, r: Node?, j: nat)
    requires SplitAt(t, t', n, r, j)
    ensures var u := t.nodes[n].parent;
            && u in t'.nodes && t'.nodes[u] == WithKey(t.nodes[u], j, t.nodes[n].keys[MID], r)
            && |t'.nodes[u].kids| == |t'.nodes[u].keys| + 1 == |t.nodes[u].kids| + 1
            && Sorted(t'.nodes[u].keys) && t'.ranges[u] == t.ranges[u]
            && forall i :: 0 <= i < |t'.nodes[u].keys| ==> t.ranges[u].lo < t'.nodes[u].keys[i] < t.ranges[u].hi
  {
    SplitPlace(t, n, r, j);
    var u := t.nodes[n].parent;
    KidInside(t, n, u, j);
    WithKeySorted(t.nodes[u], j, t.nodes[n].keys[MID], r, t.ranges[u].lo, t.ranges[u].hi);
  }

  lemma HolderKid(t: Tree, t': Tree, n: Node?, r: Node?, j: nat, i: nat)
    requires SplitAt(t, t', n, r, j)
    requires var u := t.nodes[n].parent;
             && u in t'.nodes && u in t'.ranges && i < |t'.nodes[u].kids| && |t'.nodes[u].kids| == |t'.nodes[u].keys| + 1
    ensures KidOK(t', t.nodes[n].parent, i)
  {
    SplitPlace(t, n, r, j);
    var u := t.nodes[n].parent;
    HolderKeys(t, t', n, r, j);
    WithKeyAt(t.nodes[u], j, t.nodes[n].keys[MID], r, i);
    if i < j || i > j + 1 {
      OtherKidStays(t, t', n, r, j, if i < j then i else i - 1);
    } else {
      KidFacts(t, n, u, j);
    }
  }

  lemma OtherKidStays(t: Tree, t': Tree, n: Node?, r: Node?, j: nat, i: nat)
    requires SplitAt(t, t', n, r, j) && i != j && i < |t.nodes[t.nodes[n].parent].kids|
    ensures var u := t.nodes[n].parent;
            t.ranges[u].level > 0 && KidOK(t, u, i)
    ensures var u, kid := t.nodes[n].parent, t.nodes[t.nodes[n].parent].kids[i];
            && kid in t'.nodes && kid in t'.ranges && t'.nodes[kid].parent == u && t'.ranges[kid] == t.ranges[kid]
  {
    SplitPlace(t, n, r, j);
    KidFacts(t, n, t.nodes[n].parent, i);
  }

  lemma SplitHolder(t: Tree, t': Tree, n: Node?, r: Node?, j: nat)
    requires SplitAt(t, t', n, r, j)
    ensures NodeOK(t', t.nodes[n].parent, t.nodes[n].parent)
  {
    SplitPlace(t, n, r, j);
    var u := t.nodes[n].parent;
    HolderParent(t, t', n, r, j);
    HolderKeys(t, t', n, r, j);
    forall i: nat | i < |t'.nodes[u].kids|
      ensures KidOK(t', u, i)
    {
      HolderKid(t, t', n, r, j, i);
    }
  }

  lemma ParentStays(t: Tree, t': Tree, n: Node?, r: Node?, j: nat, p: Node?)
    requires SplitAt(t, t', n, r, j) && p in t.ranges && NodeOK(t, n, p) && p != n
    ensures p in t'.nodes && p in t'.ranges && t'.root in t'.ranges && ParentOK(t', p)
  {
    SplitPlace(t, n, r, j);
    if p != t.root {
      var i := KidIndex(t, n, p);
      var u := t.nodes[n].parent;
      if t.nodes[p].parent == n {
        KidOfHalf(t, t', n, r, j, p, i);
      } else if t.nodes[p].parent == u {
        KidOfHolder(t, t', n, r, j, p, i);
      }
    }
  }

  lemma KidOfHalf(t: Tree, t': Tree, n: Node?, r: Node?, j: nat, p: Node?, i: nat)
    requires SplitAt(t, t', n, r, j) && i < |t.nodes[n].kids| && t.nodes[n].kids[i] == p
    ensures p in t'.nodes && n in t'.nodes && r in t'.nodes
    ensures t'.nodes[p].parent == (if i <= MID then n else r) && p in t'.nodes[t'.nodes[p].parent].kids
  {
    SplitPlace(t, n, r, j);
    var x := t.nodes[n];
    assert i <= MID ==> LeftPart(x).kids[i] == p;
    assert i > MID ==> RightPart(x).kids[i - MID - 1] == p;
  }

  lemma KidOfHolder(t: Tree, t': Tree, n: Node?, r: Node?, j: nat, p: Node?, i: nat)
    requires SplitAt(t, t', n, r, j) && p in t.nodes && p != n && t.nodes[p].parent == t.nodes[n].parent != n
    requires var u := t.nodes[n].parent; i < |t.nodes[u].kids| && t.nodes[u].kids[i] == p && u != p
    ensures var u := t.nodes[n].parent; p in t'.nodes && u in t'.nodes && t'.nodes[p].parent == u && p in t'.nodes[u].kids
  {
    SplitPlace(t, n, r, j);
    var u := t.nodes[n].parent;
    WithKeyHolds(t.nodes[u], j, t.nodes[n].keys[MID], r, i);
  }

  lemma HolderParent(t: Tree, t': Tree, n: Node?, r: Node?, j: nat)
    requires SplitAt(t, t', n, r, j)
    ensures var u := t.nodes[n].parent; u in t'.nodes && u in t'.ranges && t'.root in t'.ranges && ParentOK(t', u)
  {
    SplitPlace(t, n, r, j);
    ParentStays(t, t', n, r, j, t.nodes[n].parent);
  }

  lemma SplitOther(t: Tree, t': Tree, n: Node?, r: Node?, j: nat, p: Node?)
    requires SplitAt(t, t', n, r, j) && p in t.ranges && NodeOK(t, n, p) && p != n && p != t.nodes[n].parent
    ensures NodeOK(t', t.nodes[n].parent, p)
  {
    SplitPlace(t, n, r, j);
    ParentStays(t, t', n, r, j, p);
    if t.ranges[p].level > 0 {
      forall i: nat | i < |t.nodes[p].kids|
        ensures p in t'.nodes && t'.nodes[p].kids == t.nodes[p].kids && t'.nodes[p].keys == t.nodes[p].keys && KidOK(t', p, i)
      {
        KidStays(t, t', n, r, j, p, i);
      }
    }
  }

  /** Splitting node n leaves a legal tree, except that its parent may now be overfull. */
  lemma SplitKeepsTree(t: Tree, n: Node?, r: Node?, j: nat)
    requires SplitReady(t, n, r) && n != t.root
    requires NodeOK(t, n, t.nodes[n].parent) && j < |t.nodes[t.nodes[n].parent].kids|
    requires t.nodes[t.nodes[n].parent].kids[j] == n
    ensures Overfull(SplitTree(t, n, r, j), t.nodes[n].parent)
  {
    var t', u := SplitTree(t, n, r, j), t.nodes[n].parent;
    SplitPlace(t, n, r, j);
    forall p | p in t'.ranges
      ensures NodeOK(t', u, p)
    {
      if p == n {
        SplitLeft(t, t', n, r, j);
      } else if p == r {
        SplitRight(t, t', n, r, j);
      } else {
        Facts(t, n, p);
        if p == u {
          SplitHolder(t, t', n, r, j);
        } else {
          SplitOther(t, t', n, r, j, p);
        }
      }
    }
  }

  /** Raising an overfull root prepares it to split like any other node. */
  lemma RaiseKeepsTree(t: Tree, q: Node?)
    requires Overfull(t, t.root) && q != null && q !in t.ranges && q !in t.nodes
    requires t.root in t.nodes && |t.nodes[t.root].keys| == MAX_KEYS + 1
    ensures Overfull(Raised(t, q), t.root) && NodeOK(Raised(t, q), t.root, q)
    ensures KeySet(Raised(t, q)) == KeySet(t)
  {
    var t' := Raised(t, q);
    Facts(t, t.root, t.root);
    forall p | p in t'.ranges
      ensures NodeOK(t', t.root, p)
    {
      if p == q {
        assert KidOK(t', q, 0);
      } else {
        RaisedNode(t, q, p);
      }
    }
    forall k
      ensures k in KeySet(t') <==> k in KeySet(t)
    {
      if k in KeySet(t) {
        var p :| p in t.ranges && p in t.nodes && k in t.nodes[p].keys;
        assert p in t'.ranges && p in t'.nodes && k in t'.nodes[p].keys;
      }
    }
  }

  lemma RaisedNode(t: Tree, q: Node?, p: Node?)
    requires Overfull(t, t.root) && q != null && q !in t.ranges && q !in t.nodes && p in t.ranges
    requires t.root in t.nodes && |t.nodes[t.root].keys| == MAX_KEYS + 1
    ensures NodeOK(Raised(t, q), t.root, p)
  {
    var t' := Raised(t, q);
    Facts(t, t.root, p);
    if t.ranges[p].level > 0 {
      forall i: nat | i < |t.nodes[p].kids|
        ensures KidOK(t', p, i)
      {
        KidFacts(t, t.root, p, i);
      }
    }
  }

  /** A split moves keys around but keeps all of them. */
  lemma SplitKeepsKeys(t: Tree, t': Tree, n: Node?, r: Node?, j: nat)
    requires SplitAt(t, t', n, r, j)
    ensures KeySet(t') == KeySet(t)
  {
    SplitPlace(t, n, r, j);
    Halves(t, t', n, r, j);
    HolderKeys(t, t', n, r, j);
    var x, u := t.nodes[n], t.nodes[n].parent;
    var promoted := x.keys[MID];
    assert x.keys == x.keys[..MID] + [promoted] + x.keys[MID + 1..];
    assert t.nodes[u].keys == t.nodes[u].keys[..j] + t.nodes[u].keys[j..];
    forall k | k in KeySet(t)
      ensures k in KeySet(t')
    {
      var p :| p in t.ranges && p in t.nodes && k in t.nodes[p].keys;
      var p' := if p != n || k in x.keys[..MID] then p else if k == promoted then u else r;
      assert p' in t'.ranges && p' in t'.nodes && k in t'.nodes[p'].keys;
    }
    forall k | k in KeySet(t')
      ensures k in KeySet(t)
    {
      var p' :| p' in t'.ranges && p' in t'.nodes && k in t'.nodes[p'].keys;
      var p := if p' == r || (p' == u && k == promoted) then n else p';
      assert p in t.ranges && p in t.nodes && k in t.nodes[p].keys;
    }
  }

  // Inserting into a leaf

  ghost function LeafInsert(t: Tree, leaf: Node?, j: nat, key: Key): Tree
    requires leaf in t.nodes && t.nodes[leaf].kids == [] && j <= |t.nodes[leaf].keys|
  {
    t.(nodes := t.nodes[leaf := WithKey(t.nodes[leaf], j, key, null)])
  }

  lemma LeafInsertKeepsTree(t: Tree, leaf: Node?, j: nat, key: Key)
    requires WellFormed(t) && leaf in t.ranges && leaf in t.nodes && t.nodes[leaf].kids == []
    requires t.ranges[leaf].lo < key < t.ranges[leaf].hi && j <= |t.nodes[leaf].keys|
    requires (j > 0 ==> t.nodes[leaf].keys[j - 1] < key) && (j < |t.nodes[leaf].keys| ==> key < t.nodes[leaf].keys[j])
    ensures Overfull(LeafInsert(t, leaf, j, key), leaf) && RootOK(LeafInsert(t, leaf, j, key))
    ensures |t.nodes[leaf].keys| < MAX_KEYS ==> WellFormed(LeafInsert(t, leaf, j, key))
    ensures KeySet(LeafInsert(t, leaf, j, key)) == KeySet(t) + {key}
  {
    var t' := LeafInsert(t, leaf, j, key);
    Facts(t, null, leaf);
    WithKeySorted(t.nodes[leaf], j, key, null, t.ranges[leaf].lo, t.ranges[leaf].hi);
    forall p | p in t'.ranges
      ensures NodeOK(t', leaf, p) && (|t.nodes[leaf].keys| < MAX_KEYS ==> NodeOK(t', null, p))
    {
      LeafInsertNode(t, leaf, j, key, p);
    }
    LeafInsertKeys(t, leaf, j, key);
  }

  lemma LeafInsertNode(t: Tree, leaf: Node?, j: nat, key: Key, p: Node?)
    requires WellFormed(t) && leaf in t.ranges && leaf in t.nodes && t.nodes[leaf].kids == []
    requires j <= |t.nodes[leaf].keys| && p in t.ranges
    requires var r := WithKey(t.nodes[leaf], j, key, null);
             Sorted(r.keys) && forall i :: 0 <= i < |r.keys| ==> t.ranges[leaf].lo < r.keys[i] < t.ranges[leaf].hi
    ensures var t' := LeafInsert(t, leaf, j, key);
            NodeOK(t', leaf, p) && (|t.nodes[leaf].keys| < MAX_KEYS ==> NodeOK(t', null, p))
  {
    var t' := LeafInsert(t, leaf, j, key);
    Facts(t, null, p);
    Facts(t, null, leaf);
    if t.ranges[p].level > 0 {
      forall i: nat | i < |t.nodes[p].kids|
        ensures KidOK(t', p, i)
      {
        KidFacts(t, null, p, i);
      }
    }
  }

  lemma LeafInsertKeys(t: Tree, leaf: Node?, j: nat, key: Key)
    requires leaf in t.ranges && leaf in t.nodes && t.nodes[leaf].kids == [] && j <= |t.nodes[leaf].keys|
    ensures KeySet(LeafInsert(t, leaf, j, key)) == KeySet(t) + {key}
  {
    var t', keys := LeafInsert(t, leaf, j, key), t.nodes[leaf].keys;
    SplicedKeys(keys, j, key);
    forall k | k in KeySet(t')
      ensures k in KeySet(t) + {key}
    {
      var p :| p in t'.ranges && p in t'.nodes && k in t'.nodes[p].keys;
      assert k != key ==> k in t.nodes[p].keys;
    }
    forall k | k in KeySet(t) + {key}
      ensures k in KeySet(t')
    {
      if k == key {
        assert k in t'.nodes[leaf].keys;
      } else {
        var p :| p in t.ranges && p in t.nodes && k in t.nodes[p].keys;
        assert p in t'.ranges && p in t'.nodes && k in t'.nodes[p].keys;
      }
    }
  }

  lemma SplicedKeys(keys: seq<Key>, j: nat, key: Key)
    requires j <= |keys|
    ensures forall k :: k in keys[..j] + [key] + keys[j..] <==> k in keys || k == key
  {
    assert keys == keys[..j] + keys[j..];
  }

  // The tree of nodes

  ghost function ViewOf(nodes: set<Node?>): (v: map<Node?, Item>)
    requires forall n :: n in nodes ==> n != null && n.Built()
    reads nodes
    ensures v.Keys == nodes
  {
    map n | n in nodes :: n.Contents()
  }

  /** An array whose elements from i+1 on, up to `num`, have moved up one slot, one after the other. */
  function Shifted<T>(s: seq<T>, i: int, num: nat): (r: seq<T>)
    requires -1 <= i < num < |s|
    ensures |r| == |s|
    decreases num - i
  {
    if i == num - 1 then s
    else
      var r := Shifted(s, i + 1, num);
      r[i + 2 := r[i + 1]]
  }

  lemma {:induction false} ShiftedIs<T>(s: seq<T>, i: int, num: nat)
    requires -1 <= i < num < |s|
    ensures Shifted(s, i, num) == s[..i + 2] + s[i + 1..num] + s[num + 1..]
    decreases num - i
  {
    if i < num - 1 {
      ShiftedIs(s, i + 1, num);
    }
  }

  lemma ShiftEnd<T>(s: seq<T>, i: int, num: nat, x: T)
    requires -1 <= i < num < |s|
    ensures Shifted(s, i, num)[i + 1 := x][..num + 1] == s[..num][..i + 1] + [x] + s[..num][i + 1..]
  {
    ShiftedIs(s, i, num);
  }

  lemma StillNoChildren(a: nat, b: nat)
    requires a < |NO_CHILDREN| && b < |NO_CHILDREN|
    ensures NO_CHILDREN[a := NO_CHILDREN[b]] == NO_CHILDREN && NO_CHILDREN[a := null] == NO_CHILDREN
  {
  }

  /** The shifted arrays with the new entries in their gaps. */
  lemma InsertedContents(keys: seq<Key>, children: seq<Node?>, i: int, num: nat, key: Key, right: Node?,
                         isLeaf: bool, parent: Node?, keys': seq<Key>, children': seq<Node?>)
    requires -1 <= i < num <= MAX_KEYS && |keys| == MAX_KEYS + 1 && |children| == ORDER + 1
    requires keys' == Shifted<Key>(keys, i, num)[i + 1 := key]
    requires children' == Shifted<Node?>(children, i + 1, num + 1)[i + 2 := right]
    ensures Item(keys'[..num + 1], if isLeaf then [] else children'[..num + 2], parent)
         == WithKey(Item(keys[..num], if isLeaf then [] else children[..num + 1], parent), i + 1, key, right)
  {
    ShiftEnd<Key>(keys, i, num, key);
    ShiftEnd<Node?>(children, i + 1, num + 1, right);
  }

  lemma KeyBefore(keys: seq<Key>, i: int, num: nat, key: Key)
    requires -1 <= i < num < |keys| && key !in keys[..num] && (i >= 0 ==> Shifted<Key>(keys, i, num)[i] <= key)
    ensures i >= 0 ==> keys[i] < key
  {
    if i >= 0 {
      ShiftedIs<Key>(keys, i, num);
      assert keys[..num][i] == keys[i];
    }
  }

  /** The loop of `node_insert_at`: shift the keys larger than `key`, and their right children, up one slot. */
  method ShiftUp(n: Node, key: Key) returns (i: int)
    requires n.Built() && n.numKeys <= MAX_KEYS && key !in n.keys[..n.numKeys]
    modifies n`keys, n`children
    ensures -1 <= i < n.numKeys && n.Built()
    ensures n.keys == Shifted<Key>(old(n.keys), i, n.numKeys)
    ensures n.children == Shifted<Node?>(old(n.children), i + 1, n.numKeys + 1)
    ensures (i >= 0 ==> old(n.keys)[i] < key) && (i + 1 < n.numKeys ==> key < old(n.keys)[i + 1])
  {
    i := n.numKeys - 1;
    ghost var keys: seq<Key>, children: seq<Node?>, num: nat := n.keys, n.children, n.numKeys;
    while i >= 0 && n.keys[i] > key
      invariant -1 <= i < num
      invariant n.keys == Shifted<Key>(keys, i, num) && n.children == Shifted<Node?>(children, i + 1, num + 1)
      invariant n.isLeaf ==> n.children == NO_CHILDREN
      invariant i + 1 < num ==> key < Shifted<Key>(keys, i, num)[i + 2]
      modifies n`keys, n`children
    {
      assert n.isLeaf ==> n.children[i + 2 := n.children[i + 1]] == NO_CHILDREN by { StillNoChildren(i + 2, i + 1); }
      n.keys := n.keys[i + 1 := n.keys[i]];
      n.children := n.children[i + 2 := n.children[i + 1]];
      i := i - 1;
    }
    assert i >= 0 ==> keys[i] < key by { KeyBefore(keys, i, num, key); }
    assert i + 1 < num ==> key < keys[i + 1] by { ShiftedIs<Key>(keys, i, num); }
  }

  /** `node_insert_at`: a key, and the child to its right, at the place the key's order gives it. */
  method NodeInsertAt(n: Node, key: Key, rightChild: Node?) returns (ghost j: nat)
    requires n.Built() && n.numKeys <= MAX_KEYS && (n.isLeaf <==> rightChild == null) && rightChild != n
    requires key !in n.keys[..n.numKeys]
    modifies n`keys, n`children, n`numKeys, (if rightChild == null then {} else {rightChild})`parent
    ensures n.Built() && n.numKeys == old(n.numKeys) + 1
    ensures j <= old(n.numKeys) && (j > 0 ==> old(n.keys)[j - 1] < key) && (j < old(n.numKeys) ==> key < old(n.keys)[j])
    ensures n.Contents() == WithKey(old(n.Contents()), j, key, rightChild)
    ensures rightChild != null ==> rightChild.parent == n
  {
    var i := ShiftUp(n, key);
    j := i + 1;
    n.keys := n.keys[i + 1 := key];
    n.children := n.children[i + 2 := rightChild];
    InsertedContents(old(n.keys), old(n.children), i, n.numKeys, key, rightChild, n.isLeaf, n.parent, n.keys, n.children);
    if rightChild != null {
      rightChild.parent := n;
    } else {
      StillNoChildren(i + 2, 0);
    }
    n.numKeys := n.numKeys + 1;
  }

  /** The first half of `split`: the keys and children behind the middle key move to a new node. */
  method Halve(n: Node, ghost nodes: set<Node?>) returns (promoted: Key, right: Node)
    requires n in nodes && n.Built() && n.numKeys == MAX_KEYS + 1
    requires !n.isLeaf ==> forall kid <- n.children :: kid in nodes && kid != null && kid != n
    modifies n`numKeys, n`children, (set m | m in nodes && m != null :: m)`parent
    ensures promoted == n.keys[MID] && n.Built() && right.Built() && right.isLeaf == n.isLeaf && fresh(right)
    ensures n.Contents() == LeftPart(old(n.Contents()))
    ensures right.Contents() == RightPart(old(n.Contents())).(parent := null)
    ensures forall m {:trigger m.parent} :: m in nodes && m != null ==>
              m.parent == if m in RightPart(old(n.Contents())).kids then right else old(m.parent)
  {
    assert n.keys[..MAX_KEYS + 1] == n.keys && n.children[..ORDER + 1] == n.children;
    promoted := n.keys[MID];
    right := new Node(n.isLeaf);
    CopyKeys(n, right);
    if !n.isLeaf {
      MoveChildren(n, right, nodes);
    }
    n.numKeys := MID;
  }

  /** The same, told for all nodes at once. */
  method HalveAmong(n: Node, ghost nodes: set<Node?>, ghost items: map<Node?, Item>) returns (promoted: Key, right: Node)
    requires n in nodes && n.Built() && n.numKeys == MAX_KEYS + 1 && items.Keys == nodes
    requires |items[n].keys| == MAX_KEYS + 1 && (items[n].kids == [] || |items[n].kids| == |items[n].keys| + 1)
    requires forall m {:trigger items[m]} :: m in nodes ==> Holds(m, items[m])
    requires forall kid <- items[n].kids :: kid in nodes && kid != n
    modifies n`numKeys, n`children, (set m | m in nodes && m != null :: m)`parent
    ensures promoted == items[n].keys[MID] && right.isLeaf == n.isLeaf && fresh(right)
    ensures Holds(right, RightPart(items[n]).(parent := null)) && Holds(n, LeftPart(items[n]))
    ensures forall m {:trigger items[m]} :: m in nodes && m != n ==>
              Holds(m, if m in RightPart(items[n]).kids then items[m].(parent := right) else items[m])
  {
    assert !n.isLeaf ==> n.children == items[n].kids;
    promoted, right := Halve(n, nodes);
    forall m | m in nodes && m != n
      ensures Holds(m, if m in RightPart(items[n]).kids then items[m].(parent := right) else items[m])
    {
      assert old(Holds(m, items[m]));
    }
  }

  method CopyKeys(n: Node, right: Node)
    requires n != right && n.Built() && right.Built() && n.numKeys == MAX_KEYS + 1
    modifies right`numKeys, right`keys
    ensures right.Built() && right.numKeys == MAX_KEYS - MID && right.keys[..right.numKeys] == n.keys[MID + 1..]
  {
    right.numKeys := n.numKeys - MID - 1;
    var i := 0;
    while i < right.numKeys
      invariant i <= right.numKeys == MAX_KEYS - MID && |right.keys| == MAX_KEYS + 1
      invariant forall k :: 0 <= k < i ==> right.keys[k] == n.keys[MID + 1 + k]
    {
      right.keys := right.keys[i := n.keys[MID + 1 + i]];
      i := i + 1;
    }
    SuffixIs<Key>(right.keys[..right.numKeys], n.keys, MID + 1);
  }

  lemma SuffixIs<T>(s: seq<T>, whole: seq<T>, from: nat)
    requires from + |s| == |whole| && forall k :: 0 <= k < |s| ==> s[k] == whole[from + k]
    ensures s == whole[from..]
  {
  }

  method MoveChildren(n: Node, right: Node, ghost nodes: set<Node?>)
    requires n != right && n.Built() && right.Built() && !n.isLeaf && !right.isLeaf && right.numKeys == MAX_KEYS - MID
    requires n in nodes && right !in nodes && forall kid <- n.children :: kid in nodes && kid != null && kid != n
    modifies n`children, right`children, (set m | m in nodes && m != null :: m)`parent
    ensures n.Built() && right.Built()
    ensures n.children[..MID + 1] == old(n.children)[..MID + 1]
    ensures right.children[..right.numKeys + 1] == old(n.children)[MID + 1..]
    ensures forall m {:trigger m.parent} :: m in nodes && m != null ==>
              m.parent == if m in old(n.children)[MID + 1..] then right else old(m.parent)
  {
    ghost var was: seq<Node?> := n.children;
    var i := 0;
    while i <= right.numKeys
      invariant i <= right.numKeys + 1 && |n.children| == ORDER + 1 && |right.children| == ORDER + 1
      invariant n.children[..MID + 1] == was[..MID + 1]
      invariant forall k :: MID < k - i < |n.children| - i ==> n.children[k] == was[k]
      invariant right.children[..i] == was[MID + 1..MID + 1 + i]
      invariant forall m {:trigger m.parent} :: m in nodes && m != null ==>
                  m.parent == if m in was[MID + 1..MID + 1 + i] then right else old(m.parent)
    {
      var kid := n.children[MID + 1 + i];
      assert kid == was[MID + 1 + i] && kid in was;
      assert was[MID + 1..MID + 1 + i + 1] == was[MID + 1..MID + 1 + i] + [kid];
      right.children := right.children[i := kid];
      assert right.children[..i + 1] == right.children[..i] + [kid];
      if kid != null {
        kid.parent := right;
      }
      n.children := n.children[MID + 1 + i := null];
      i := i + 1;
    }
    assert was[MID + 1..MID + 1 + i] == was[MID + 1..];
  }

  /** The promoted key falls, by its order, into the slot whose kid has split. */
  lemma SlotAgrees(t: Tree, n: Node?, j: nat)
    requires Overfull(t, n) && n in t.ranges && NodeOK(t, n, n) && n != t.root && |t.nodes[n].keys| == MAX_KEYS + 1
    requires NodeOK(t, n, t.nodes[n].parent) && j <= |t.nodes[t.nodes[n].parent].keys|
    requires var keys, key := t.nodes[t.nodes[n].parent].keys, t.nodes[n].keys[MID];
             (j > 0 ==> keys[j - 1] < key) && (j < |keys| ==> key < keys[j])
    ensures j < |t.nodes[t.nodes[n].parent].kids| && t.nodes[t.nodes[n].parent].kids[j] == n
  {
    var i := KidIndex(t, n, n);
    PlaceUnique(t.nodes[t.nodes[n].parent].keys, t.nodes[n].keys[MID], i, j);
  }

  /** In sorted keys a new key has one place. */
  lemma PlaceUnique(keys: seq<Key>, key: Key, i: nat, j: nat)
    requires Sorted(keys) && i <= |keys| && j <= |keys|
    requires (i > 0 ==> keys[i - 1] < key) && (i < |keys| ==> key < keys[i])
    requires (j > 0 ==> keys[j - 1] < key) && (j < |keys| ==> key < keys[j])
    ensures i == j
  {
  }

  lemma PromotedIsNew(t: Tree, n: Node?)
    requires Overfull(t, n) && n in t.ranges && NodeOK(t, n, n) && n != t.root && |t.nodes[n].keys| == MAX_KEYS + 1
    ensures t.nodes[n].parent in t.ranges && NodeOK(t, n, t.nodes[n].parent) && t.nodes[n].parent != n
    ensures t.nodes[n].keys[MID] !in t.nodes[t.nodes[n].parent].keys
    ensures t.ranges[t.nodes[n].parent].level == t.ranges[n].level + 1
    ensures |t.nodes[t.nodes[n].parent].keys| <= MAX_KEYS
  {
    var u, key := t.nodes[n].parent, t.nodes[n].keys[MID];
    var i := KidIndex(t, n, n);
    var keys := t.nodes[u].keys;
    forall k | 0 <= k < |keys|
      ensures keys[k] != key
    {
      assert k < i ==> keys[k] <= keys[i - 1];
      assert k > i ==> keys[i] <= keys[k];
    }
  }

  lemma NotOverfull(t: Tree, over: Node?)
    requires Overfull(t, over) && RootOK(t) && over in t.nodes && |t.nodes[over].keys| <= MAX_KEYS
    ensures WellFormed(t)
  {
    forall p | p in t.ranges
      ensures NodeOK(t, null, p)
    {
      Facts(t, over, p);
    }
  }

  lemma SplitRootOK(t: Tree, t': Tree, n: Node?, r: Node?, j: nat)
    requires SplitAt(t, t', n, r, j) && RootOK(t)
    ensures RootOK(t')
  {
    SplitPlace(t, n, r, j);
    HolderKeys(t, t', n, r, j);
  }

  /** Node m's live part is `item`. */
  ghost predicate Holds(m: Node?, item: Item)
    reads m
  {
    m != null && m.Built() && m.Contents() == item
  }

  ghost predicate InHeap(nodes: map<Node?, Item>)
    reads nodes.Keys
  {
    forall m {:trigger nodes[m]} :: m in nodes ==> Holds(m, nodes[m])
  }

  /** Node m once n has kept its left half only and the kids behind the middle key point at r. */
  ghost function HalvedItem(t: Tree, n: Node?, r: Node?, m: Node?): Item
    requires SplitReady(t, n, r) && m in t.nodes
  {
    if m == n then LeftPart(t.nodes[n])
    else if m in RightPart(t.nodes[n]).kids then t.nodes[m].(parent := r)
    else t.nodes[m]
  }

  class BTree {
    var root: Node
    ghost var ranges: map<Node?, Range>

    ghost predicate Physical()
      reads this, ranges.Keys
    {
      root in ranges && forall n :: n in ranges ==> n != null && n.Built()
    }

    ghost function View(): Tree
      requires Physical()
      reads this, ranges.Keys
    {
      Tree(ViewOf(ranges.Keys), ranges, root)
    }

    ghost predicate Valid()
      reads this, ranges.Keys
    {
      Physical() && WellFormed(View())
    }

    /** The keys in the tree. */
    ghost function Keys(): set<Key>
      requires Physical()
      reads this, ranges.Keys
    {
      KeySet(View())
    }

    /** `btree_create`: an empty leaf. */
    constructor ()
      ensures Valid() && Keys() == {} && fresh(ranges.Keys)
    {
      root := new Node(true);
      ranges := map[root := Range(WHOLE_LO, KEY_END, 0)];
      new;
      assert NodeOK(View(), null, root);
    }

    /** Between the halves of a split: n and `right` share what n held, the promoted key is in neither. */
    ghost predicate Halved(t: Tree, n: Node, right: Node)
      requires SplitReady(t, n, right)
      reads this, ranges.Keys, right
    {
      && t.ranges == ranges && t.root == root && t.nodes.Keys == ranges.Keys && RootOK(t)
      && (forall m {:trigger t.nodes[m]} :: m in ranges ==> Holds(m, HalvedItem(t, n, right, m)))
      && right.isLeaf == n.isLeaf && Holds(right, RightPart(t.nodes[n]).(parent := null))
    }

    /** The heap holds exactly the nodes of tree t. */
    ghost predicate Shows(t: Tree)
      reads this, t.nodes.Keys
    {
      t.ranges == ranges && t.root == root && t.nodes.Keys == ranges.Keys && root in ranges && InHeap(t.nodes)
    }

    /** Record the ranges of a tree the heap already holds. */
    ghost method Adopt(t: Tree)
      requires t.root == root && root in t.ranges && t.nodes.Keys == t.ranges.Keys && InHeap(t.nodes)
      modifies this`ranges
      ensures Physical() && View() == t
    {
      ranges := t.ranges;
      ShownView(t);
    }

    lemma ShownView(t: Tree)
      requires Shows(t)
      ensures Physical() && View() == t
    {
      assert ViewOf(ranges.Keys) == t.nodes;
    }

    method SplitInHalf(n: Node, ghost t: Tree) returns (promoted: Key, right: Node)
      requires Physical() && t == View() && Overfull(t, n) && RootOK(t) && n in ranges && n.numKeys == MAX_KEYS + 1
      modifies n`numKeys, n`children, (set m | m in ranges && m != null :: m)`parent
      ensures fresh(right) && SplitReady(t, n, right) && Halved(t, n, right) && promoted == t.nodes[n].keys[MID]
      ensures (n.parent == null <==> n == root) && (n.parent != null ==> n.parent in ranges)
    {
      Facts(t, n, n);
      SplitKids(t, n);
      promoted, right := HalveAmong(n, ranges.Keys, t.nodes);
    }

    /** A new root over n and `right`. */
    method NewRoot(n: Node, promoted: Key, right: Node) returns (newRoot: Node)
      requires n != right && n.Built() && right.Built()
      modifies this`root, n`parent, right`parent
      ensures fresh(newRoot) && root == newRoot
      ensures Holds(n, old(n.Contents()).(parent := newRoot)) && Holds(right, old(right.Contents()).(parent := newRoot))
      ensures Holds(newRoot, WithKey(Item([], [n], null), 0, promoted, right))
    {
      newRoot := new Node(false);
      newRoot.keys := newRoot.keys[0 := promoted];
      newRoot.numKeys := 1;
      newRoot.children := newRoot.children[0 := n][1 := right];
      n.parent := newRoot;
      right.parent := newRoot;
      root := newRoot;
      NewRootContents(newRoot, promoted, n, right);
    }

    lemma RootItems(n: Node, right: Node, newRoot: Node, t: Tree)
      requires SplitReady(t, n, right) && n == t.root && newRoot != right && newRoot !in t.nodes && newRoot !in t.ranges
      requires Holds(newRoot, WithKey(Item([], [n], null), 0, t.nodes[n].keys[MID], right))
      requires Holds(n, LeftPart(t.nodes[n]).(parent := newRoot)) && Holds(right, RightPart(t.nodes[n]).(parent := newRoot))
      requires t.nodes.Keys == t.ranges.Keys
      requires forall m {:trigger t.nodes[m]} :: m in t.nodes && m != n ==> Holds(m, HalvedItem(t, n, right, m))
      ensures NodeOK(Raised(t, newRoot), n, newRoot) && SplitReady(Raised(t, newRoot), n, right)
      ensures var t' := SplitTree(Raised(t, newRoot), n, right, 0);
              && t'.root == newRoot && t'.nodes.Keys == t.nodes.Keys + {right, newRoot}
              && t'.ranges.Keys == t.ranges.Keys + {right, newRoot}
              && InHeap(t'.nodes)
    {
      RaiseReady(t, n, right, newRoot);
    }

    /** A split of the root, done: a new root over the two halves. */
    method SplitAtRoot(n: Node, promoted: Key, right: Node, ghost t: Tree)
      requires SplitReady(t, n, right) && Halved(t, n, right) && n == root && promoted == t.nodes[n].keys[MID]
      modifies this, n`parent, right`parent
      ensures Valid() && Keys() == KeySet(t)
      ensures ranges.Keys == old(ranges.Keys) + {right, root} && fresh(root)
    {
      var newRoot := NewRoot(n, promoted, right);
      forall m | m in t.nodes && m != n
        ensures Holds(m, HalvedItem(t, n, right, m))
      {
        assert old(Holds(m, HalvedItem(t, n, right, m)));
      }
      RootItems(n, right, newRoot, t);
      RootSplitDone(t, n, right, newRoot);
      Adopt(SplitTree(Raised(t, newRoot), n, right, 0));
    }

    lemma ParentReady(n: Node, right: Node, t: Tree)
      requires SplitReady(t, n, right) && Halved(t, n, right) && n != root
      ensures n.parent == t.nodes[n].parent && n.parent in ranges && n.parent != n && n.parent != right
      ensures Holds(n.parent, t.nodes[n.parent]) && NodeOK(t, n, n.parent) && n.parent.numKeys <= MAX_KEYS
      ensures t.nodes[n].keys[MID] !in n.parent.keys[..n.parent.numKeys] && !n.parent.isLeaf
    {
      PromotedIsNew(t, n);
      var i := KidIndex(t, n, n);
      SplitPlace(t, n, right, i);
      assert Holds(n, HalvedItem(t, n, right, n)) && Holds(n.parent, HalvedItem(t, n, right, n.parent));
    }

    /** The parent takes the promoted key and the new sibling. */
    method InsertInParent(n: Node, promoted: Key, right: Node, ghost t: Tree) returns (ghost j: nat)
      requires SplitReady(t, n, right) && Halved(t, n, right) && n != root && promoted == t.nodes[n].keys[MID]
      requires n.parent != null && n.parent in ranges
      modifies n.parent`keys, n.parent`children, n.parent`numKeys, right`parent
      ensures NodeOK(t, n, t.nodes[n].parent) && j < |t.nodes[t.nodes[n].parent].kids|
      ensures t.nodes[t.nodes[n].parent].kids[j] == n
      ensures Holds(n.parent, WithKey(t.nodes[n.parent], j, promoted, right))
      ensures Holds(right, RightPart(t.nodes[n]).(parent := n.parent))
      ensures forall m {:trigger t.nodes[m]} :: m in ranges && m != n.parent ==> Holds(m, HalvedItem(t, n, right, m))
    {
      ParentReady(n, right, t);
      ghost var u := n.parent;
      j := NodeInsertAt(n.parent, promoted, right);
      SlotAgrees(t, n, j);
      SplitPlace(t, n, right, j);
      forall m | m in ranges && m != u
        ensures Holds(m, HalvedItem(t, n, right, m))
      {
        assert old(Holds(m, HalvedItem(t, n, right, m)));
      }
    }

    lemma SplitShown(n: Node, right: Node, t: Tree, j: nat)
      requires SplitReady(t, n, right) && n != t.root && NodeOK(t, n, t.nodes[n].parent)
      requires j < |t.nodes[t.nodes[n].parent].kids| && t.nodes[t.nodes[n].parent].kids[j] == n
      requires Holds(t.nodes[n].parent, WithKey(t.nodes[t.nodes[n].parent], j, t.nodes[n].keys[MID], right))
      requires Holds(right, RightPart(t.nodes[n])) && t.nodes.Keys == t.ranges.Keys
      requires forall m {:trigger t.nodes[m]} :: m in t.nodes && m != t.nodes[n].parent ==> Holds(m, HalvedItem(t, n, right, m))
      ensures var t' := SplitTree(t, n, right, j);
              && t'.root == t.root && t.root in t'.ranges && t'.nodes.Keys == t'.ranges.Keys == t.ranges.Keys + {right}
              && InHeap(t'.nodes)
    {
      SplitItems(t, n, right, j);
    }

    /** A split below the root, one level of it done. */
    method SplitBelowRoot(n: Node, promoted: Key, right: Node, ghost t: Tree)
      requires SplitReady(t, n, right) && Halved(t, n, right) && n != root && promoted == t.nodes[n].keys[MID]
      requires n.parent != null && n.parent in ranges
      modifies this`ranges, n.parent, right`parent
      ensures Physical() && Keys() == KeySet(t) && ranges.Keys == old(ranges.Keys) + {right}
      ensures n.parent == old(n.parent) && n.parent in ranges && Overfull(View(), n.parent) && RootOK(View())
      ensures ranges[root].level == old(ranges)[root].level && ranges[n.parent].level == old(ranges)[n].level + 1
    {
      ghost var j := InsertInParent(n, promoted, right, t);
      SplitShown(n, right, t, j);
      SplitDone(t, n, right, j);
      Adopt(SplitTree(t, n, right, j));
    }

    /** One level of `split`; `up` is the parent that took a key, if there is one. */
    method SplitOneLevel(n: Node) returns (up: Node?, ghost right: Node)
      requires Physical() && Overfull(View(), n) && RootOK(View()) && n in ranges && n.numKeys == MAX_KEYS + 1
      modifies this, ranges.Keys
      ensures Physical() && Keys() == old(Keys()) && (up == null ==> Valid())
      ensures up != null ==> up in ranges && Overfull(View(), up) && RootOK(View())
      ensures up != null ==> ranges[root].level == old(ranges[root].level) && ranges[up].level == old(ranges[n].level) + 1
      ensures ranges.Keys == old(ranges.Keys) + {right, root} && fresh(right) && (root == old(root) || fresh(root))
    {
      ghost var t := View();
      var promoted, sibling := SplitInHalf(n, t);
      right := sibling;
      up := n.parent;
      if up == null {
        SplitAtRoot(n, promoted, sibling, t);
      } else {
        SplitBelowRoot(n, promoted, sibling, t);
      }
    }

    /** `split`: middle keys move up, halves stay below, until no node holds too many. */
    method Split(n: Node)
      requires Physical() && Overfull(View(), n) && RootOK(View()) && n in ranges && n.numKeys == MAX_KEYS + 1
      modifies this, ranges.Keys
      ensures Valid() && Keys() == old(Keys())
      ensures forall m :: m in ranges ==> m in old(ranges) || fresh(m)
      decreases ranges[root].level - ranges[n].level
    {
      var up, right := SplitOneLevel(n);
      if up == null {
        return;
      }
      Facts(View(), up, up);
      AddedTwo(old(ranges), ranges, right, root);
      if up.numKeys > MAX_KEYS {
        Split(up);
      } else {
        NotOverfull(View(), up);
      }
    }

    // Searching

    /** The linear scan in a node: the first key not smaller than `key`. */
    method Place(cur: Node, key: Key) returns (i: nat, found: bool)
      requires cur.Built() && Sorted(cur.keys[..cur.numKeys])
      ensures i <= cur.numKeys && found == (key in cur.keys[..cur.numKeys])
      ensures !found ==> PlaceOf(cur.keys[..cur.numKeys], key, i)
    {
      ghost var keys: seq<Key> := cur.keys[..cur.numKeys];
      i := 0;
      while i < cur.numKeys && key > cur.keys[i]
        invariant i <= cur.numKeys && forall j :: 0 <= j < i ==> keys[j] < key
      {
        i := i + 1;
      }
      found := i < cur.numKeys && cur.keys[i] == key;
      assert found ==> keys[i] == key;
      assert !found && i < |keys| ==> key < keys[i];
    }

    /** The scan of the recursive search, from the last key down. */
    method PlaceFromRight(cur: Node, key: Key) returns (i: nat, found: bool)
      requires cur.Built() && Sorted(cur.keys[..cur.numKeys])
      ensures i <= cur.numKeys && found == (key in cur.keys[..cur.numKeys])
      ensures !found ==> PlaceOf(cur.keys[..cur.numKeys], key, i)
    {
      ghost var keys: seq<Key> := cur.keys[..cur.numKeys];
      i := cur.numKeys;
      while i > 0 && cur.keys[i - 1] > key
        invariant i <= cur.numKeys && (i < cur.numKeys ==> key < keys[i])
      {
        i := i - 1;
      }
      found := i > 0 && cur.keys[i - 1] == key;
      if found {
        assert keys[i - 1] == key;
      } else {
        assert i > 0 ==> keys[i - 1] < key;
        AbsentAt(keys, key, i);
      }
    }

    /** `btree_search`. */
    method Search(key: Key) returns (found: bool)
      requires Valid()
      ensures found == (key in Keys())
    {
      ghost var t := View();
      RootOnPath(t, key);
      var cur := root;
      while true
        invariant cur in ranges && OnPath(t, cur, key)
        decreases ranges[cur].level
      {
        Facts(t, null, cur);
        var i, here := Place(cur, key);
        if here {
          assert key in t.nodes[cur].keys;
          return true;
        }
        if cur.isLeaf {
          NotBelowLeaf(t, cur, key);
          return false;
        }
        PathDown(t, cur, key, i);
        cur := cur.children[i];
      }
    }

    /** `btree_search_rec`, from node n on. */
    method SearchRec(n: Node?, key: Key) returns (found: bool)
      requires Valid() && (if n == null then key !in Keys() else n in ranges && OnPath(View(), n, key))
      ensures found == (key in Keys())
      decreases if n == null then 0 else ranges[n].level + 1
    {
      if n == null {
        return false;
      }
      ghost var t := View();
      Facts(t, null, n);
      var i, here := PlaceFromRight(n, key);
      if here {
        assert key in t.nodes[n].keys;
        return true;
      }
      if n.isLeaf {
        NotBelowLeaf(t, n, key);
      } else {
        PathDown(t, n, key, i);
      }
      found := SearchRec(n.children[i], key);
    }

    /** The first phase of an insert: the leaf the key belongs in, unless some node on the way holds it. */
    method LeafFor(key: Key) returns (leaf: Node, present: bool)
      requires Valid()
      ensures present == (key in Keys())
      ensures leaf in ranges && (!present ==> leaf.isLeaf && ranges[leaf].lo < key < ranges[leaf].hi)
    {
      ghost var t := View();
      RootOnPath(t, key);
      leaf := root;
      while !leaf.isLeaf
        invariant leaf in ranges && OnPath(t, leaf, key)
        decreases ranges[leaf].level
      {
        Facts(t, null, leaf);
        var i, here := Place(leaf, key);
        if here {
          assert key in t.nodes[leaf].keys;
          return leaf, true;
        }
        PathDown(t, leaf, key, i);
        leaf := leaf.children[i];
      }
      Facts(t, null, leaf);
      var i, here := Place(leaf, key);
      if here {
        assert key in t.nodes[leaf].keys;
        return leaf, true;
      }
      NotBelowLeaf(t, leaf, key);
      return leaf, false;
    }

    /** `btree_insert`: a present key changes nothing, any other key joins the set. */
    method Insert(key: Key)
      requires Valid()
      modifies this, ranges.Keys
      ensures Valid() && Keys() == old(Keys()) + {key}
      ensures forall m :: m in ranges ==> m in old(ranges) || fresh(m)
    {
      var leaf, present := LeafFor(key);
      if present {
        return;
      }
      Facts(View(), null, leaf);
      AbsentHere(View(), leaf, key);
      InsertInLeaf(leaf, key);
      if leaf.numKeys > MAX_KEYS {
        Split(leaf);
      }
    }

    /** The second phase of an insert, before any split. */
    method InsertInLeaf(leaf: Node, key: Key)
      requires Valid() && leaf in ranges && leaf.isLeaf && key !in leaf.keys[..leaf.numKeys] && leaf.numKeys <= MAX_KEYS
      requires ranges[leaf].lo < key < ranges[leaf].hi
      modifies leaf`keys, leaf`children, leaf`numKeys
      ensures Physical() && Keys() == old(Keys()) + {key} && RootOK(View())
      ensures if leaf.numKeys <= MAX_KEYS then Valid() else leaf.numKeys == MAX_KEYS + 1 && Overfull(View(), leaf)
    {
      ghost var t := View();
      ghost var j := NodeInsertAt(leaf, key, null);
      LeafInsertKeepsTree(t, leaf, j, key);
      ghost var t' := LeafInsert(t, leaf, j, key);
      forall m | m in ranges
        ensures Holds(m, t'.nodes[m])
      {
        assert m != leaf ==> old(Holds(m, t.nodes[m]));
      }
      ShownView(t');
    }
  }

  /** i is where a key that the node does not hold would go. */
  predicate PlaceOf(keys: seq<Key>, key: Key, i: nat) {
    && key !in keys && i <= |keys|
    && (i > 0 ==> keys[i - 1] < key) && (i < |keys| ==> key < keys[i])
  }

  lemma AbsentAt(keys: seq<Key>, key: Key, i: nat)
    requires Sorted(keys) && i <= |keys| && (i > 0 ==> keys[i - 1] < key) && (i < |keys| ==> key < keys[i])
    ensures PlaceOf(keys, key, i)
  {
    forall k | 0 <= k < |keys|
      ensures keys[k] != key
    {
      assert k < i ==> keys[k] <= keys[i - 1];
      assert k >= i ==> keys[i] <= keys[k];
    }
  }

  /** The search for `key` may stand at p: p owns the key, and no higher node holds it. */
  ghost predicate OnPath(t: Tree, p: Node?, key: Key) {
    && p in t.ranges && t.ranges[p].lo < key < t.ranges[p].hi
    && forall q :: q in t.ranges && q in t.nodes && t.ranges[q].level > t.ranges[p].level ==> key !in t.nodes[q].keys
  }

  lemma RootOnPath(t: Tree, key: Key)
    requires WellFormed(t)
    ensures OnPath(t, t.root, key)
  {
    Facts(t, null, t.root);
    forall q | q in t.ranges && t.ranges[q].level > t.ranges[t.root].level
      ensures q !in t.nodes || key !in t.nodes[q].keys
    {
      Facts(t, null, q);
    }
  }

  lemma PathDown(t: Tree, p: Node?, key: Key, i: nat)
    requires WellFormed(t) && OnPath(t, p, key) && NodeOK(t, null, p) && t.nodes[p].kids != []
    requires PlaceOf(t.nodes[p].keys, key, i)
    ensures t.ranges[p].level > 0 && i < |t.nodes[p].kids| && t.nodes[p].kids[i] in t.ranges
    ensures OnPath(t, t.nodes[p].kids[i], key) && t.ranges[t.nodes[p].kids[i]].level == t.ranges[p].level - 1
  {
    KidFacts(t, null, p, i);
    var kid := t.nodes[p].kids[i];
    forall q | q in t.ranges && q in t.nodes && t.ranges[q].level > t.ranges[kid].level
      ensures key !in t.nodes[q].keys
    {
      if t.ranges[q].level == t.ranges[p].level && key in t.nodes[q].keys {
        OnlyOwnerHolds(t, null, p, q, key);
      }
    }
  }

  lemma AbsentHere(t: Tree, p: Node?, key: Key)
    requires p in t.ranges && p in t.nodes && key !in KeySet(t)
    ensures key !in t.nodes[p].keys
  {
  }

  lemma NotBelowLeaf(t: Tree, p: Node?, key: Key)
    requires WellFormed(t) && OnPath(t, p, key) && NodeOK(t, null, p) && t.nodes[p].kids == [] && key !in t.nodes[p].keys
    ensures key !in KeySet(t)
  {
    if key in KeySet(t) {
      var q :| q in t.ranges && q in t.nodes && key in t.nodes[q].keys;
      OnlyOwnerHolds(t, null, p, q, key);
    }
  }

  lemma AddedTwo(before: map<Node?, Range>, after: map<Node?, Range>, x: Node?, y: Node?)
    requires after.Keys == before.Keys + {x, y}
    ensures forall m :: m in after ==> m in before || m == x || m == y
  {
    assert forall m :: m in after ==> m in after.Keys;
  }

  lemma NewRootContents(q: Node, key: Key, n: Node, r: Node)
    requires q.numKeys == 1 && q.keys == NO_KEYS[0 := key] && q.children == NO_CHILDREN[0 := n][1 := r]
    requires q.parent == null && !q.isLeaf
    ensures q.Built() && q.Contents() == WithKey(Item([], [n], null), 0, key, r)
  {
  }

  lemma SplitDone(t: Tree, n: Node?, r: Node?, j: nat)
    requires SplitReady(t, n, r) && n != t.root && RootOK(t)
    requires NodeOK(t, n, t.nodes[n].parent) && j < |t.nodes[t.nodes[n].parent].kids|
    requires t.nodes[t.nodes[n].parent].kids[j] == n
    ensures var t', u := SplitTree(t, n, r, j), t.nodes[n].parent;
            && Overfull(t', u) && RootOK(t') && KeySet(t') == KeySet(t) && t'.ranges.Keys == t.ranges.Keys + {r}
            && u in t.ranges && t'.ranges[u].level == t.ranges[n].level + 1
            && t'.root == t.root && t'.ranges[t.root].level == t.ranges[t.root].level
            && n in t'.nodes && t'.nodes[n].parent == u
  {
    var t' := SplitTree(t, n, r, j);
    SplitPlace(t, n, r, j);
    SplitKeepsTree(t, n, r, j);
    SplitKeepsKeys(t, t', n, r, j);
    SplitRootOK(t, t', n, r, j);
    HolderKeys(t, t', n, r, j);
  }

  lemma SplitItems(t: Tree, n: Node?, r: Node?, j: nat)
    requires SplitReady(t, n, r) && n != t.root && NodeOK(t, n, t.nodes[n].parent)
    requires j < |t.nodes[t.nodes[n].parent].kids| && t.nodes[t.nodes[n].parent].kids[j] == n
    ensures var t', u := SplitTree(t, n, r, j), t.nodes[n].parent;
            && t'.nodes[u] == WithKey(t.nodes[u], j, t.nodes[n].keys[MID], r)
            && t'.nodes[r] == RightPart(t.nodes[n])
            && (forall m :: m in t.nodes && m != u ==> t'.nodes[m] == HalvedItem(t, n, r, m))
            && t'.nodes.Keys == t.nodes.Keys + {r} && t'.ranges.Keys == t.ranges.Keys + {r} && t'.root == t.root
  {
    SplitPlace(t, n, r, j);
  }

  lemma RaiseReady(t: Tree, n: Node?, r: Node?, q: Node?)
    requires SplitReady(t, n, r) && n == t.root && q != null && q != r && q !in t.nodes && q !in t.ranges
    ensures var raised := Raised(t, q);
            && SplitReady(raised, n, r) && NodeOK(raised, n, q) && n != q
            && SplitTree(raised, n, r, 0).nodes[q] == WithKey(Item([], [n], null), 0, t.nodes[n].keys[MID], r)
            && SplitTree(raised, n, r, 0).nodes[r] == RightPart(t.nodes[n]).(parent := q)
            && SplitTree(raised, n, r, 0).nodes[n] == LeftPart(t.nodes[n]).(parent := q)
            && (forall m :: m in t.nodes && m != n ==> SplitTree(raised, n, r, 0).nodes[m] == HalvedItem(t, n, r, m))
            && SplitTree(raised, n, r, 0).nodes.Keys == t.nodes.Keys + {q, r}
            && SplitTree(raised, n, r, 0).ranges.Keys == t.ranges.Keys + {q, r}
            && SplitTree(raised, n, r, 0).root == q
  {
    RaiseKeepsTree(t, q);
  }

  lemma RootSplitDone(t: Tree, n: Node?, r: Node?, q: Node?)
    requires SplitReady(t, n, r) && n == t.root && q != null && q != r && q !in t.nodes && q !in t.ranges
    requires NodeOK(Raised(t, q), n, q) && SplitReady(Raised(t, q), n, r)
    ensures WellFormed(SplitTree(Raised(t, q), n, r, 0))
    ensures KeySet(SplitTree(Raised(t, q), n, r, 0)) == KeySet(t)
    ensures SplitTree(Raised(t, q), n, r, 0).ranges.Keys == t.ranges.Keys + {r, q}
  {
    var raised, t' := Raised(t, q), SplitTree(Raised(t, q), n, r, 0);
    RaiseKeepsTree(t, q);
    SplitKeepsTree(raised, n, r, 0);
    SplitKeepsKeys(raised, t', n, r, 0);
    HolderKeys(raised, t', n, r, 0);
    NotOverfull(t', q);
  }

  lemma SplitKids(t: Tree, n: Node?)
    requires Overfull(t, n) && n in t.ranges && NodeOK(t, n, n)
    ensures forall kid <- t.nodes[n].kids :: kid in t.ranges && kid != null && kid != n
  {
    forall i | 0 <= i < |t.nodes[n].kids|
      ensures t.nodes[n].kids[i] in t.ranges && t.nodes[n].kids[i] != null && t.nodes[n].kids[i] != n
    {
      KidFacts(t, n, n, i);
    }
  }

  // Whole runs

  /** The number of parent pointers between p and the root. */
  ghost function Depth(t: Tree, p: Node?): nat
    requires WellFormed(t) && p in t.ranges
    decreases t.ranges[t.root].level - t.ranges[p].level
  {
    Facts(t, null, p);
    if p == t.root then 0
    else
      var i := KidIndex(t, null, p);
      1 + Depth(t, t.nodes[p].parent)
  }

  lemma {:induction false} DepthAndLevel(t: Tree, p: Node?)
    requires WellFormed(t) && p in t.ranges
    ensures Depth(t, p) + t.ranges[p].level == t.ranges[t.root].level
    decreases t.ranges[t.root].level - t.ranges[p].level
  {
    Facts(t, null, p);
    if p != t.root {
      var i := KidIndex(t, null, p);
      DepthAndLevel(t, t.nodes[p].parent);
    }
  }

  /** All leaves are equally far from the root. */
  lemma UniformDepth(t: Tree, p: Node?, q: Node?)
    requires WellFormed(t) && p in t.ranges && q in t.ranges && p in t.nodes && q in t.nodes
    requires t.nodes[p].kids == [] && t.nodes[q].kids == []
    ensures Depth(t, p) == Depth(t, q)
  {
    Facts(t, null, p);
    Facts(t, null, q);
    DepthAndLevel(t, p);
    DepthAndLevel(t, q);
  }

  function AsSet(keys: seq<Key>): set<Key> { set k | k in keys }

  lemma AsSetStep(keys: seq<Key>, i: nat)
    requires i < |keys|
    ensures AsSet(keys[..i + 1]) == AsSet(keys[..i]) + {keys[i]}
  {
    assert keys[..i + 1] == keys[..i] + [keys[i]];
  }

  /** Any run of inserts builds a legal tree of exactly the inserted keys. */
  method BuildTree(keys: seq<Key>) returns (t: BTree)
    ensures fresh(t) && t.Valid() && t.Keys() == AsSet(keys)
  {
    t := new BTree();
    var i := 0;
    while i < |keys|
      invariant i <= |keys| && fresh(t) && t.Valid() && (forall m :: m in t.ranges ==> fresh(m))
      invariant t.Keys() == AsSet(keys[..i])
    {
      t.Insert(keys[i]);
      AsSetStep(keys, i);
      i := i + 1;
    }
    assert keys[..i] == keys;
  }

  /** Both searches answer alike: whether the key is in the tree. */
  method SearchBothWays(t: BTree, key: Key) returns (found: bool, foundRec: bool)
    requires t.Valid()
    ensures found == foundRec == (key in t.Keys())
  {
    found := t.Search(key);
    RootOnPath(t.View(), key);
    foundRec := t.SearchRec(t.root, key);
  }
}
