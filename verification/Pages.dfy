/** Page images and the in-page operations of `src/btree.c`. */
module Pages {
  import opened Rows

  const TABLES_MAX_PAGES: nat := 20000
  const PAGE_SIZE: nat := 4096
  const INTERNAL_NODE_MAX_KEYS: nat := (PAGE_SIZE - 14) / 12
  /** The key index promoted by an internal split. */
  const INTERNAL_MID: nat := INTERNAL_NODE_MAX_KEYS / 2

  datatype Cell = Cell(key: Key, row: Row)
  datatype TableDef = TableDef(name: string, root: nat, schema: Schema)

  /** One page. A leaf keeps the cells that `num` counts and, behind them, whatever earlier
      cells were left in the buffer; slots past |slots| are still zero bytes.
      The last of an internal node's `kids` is its right-child slot. */
  datatype Page =
    | Leaf(isRoot: bool, parent: nat, next: nat, num: nat, slots: seq<Cell>)
    | Internal(isRoot: bool, parent: nat, keys: seq<Key>, kids: seq<nat>)
    | Catalog(tables: seq<TableDef>)

  /** A freshly calloc'ed page, read as a node. */
  const ZERO_PAGE := Leaf(false, 0, 0, 0, [])

  function SetParent(n: Page, parent: nat): Page {
    if n.Catalog? then n else n.(parent := parent)
  }

  /** Equal pages, except perhaps for the parent field. */
  predicate SameButParent(a: Page, b: Page) {
    if a.Catalog? || b.Catalog? then a == b else a == SetParent(b, a.parent)
  }

  ghost predicate Sorted(keys: seq<Key>) {
    forall i, j :: 0 <= i < j < |keys| ==> keys[i] < keys[j]
  }

  ghost predicate SortedCells(cells: seq<Cell>) {
    forall i, j :: 0 <= i < j < |cells| ==> cells[i].key < cells[j].key
  }

  /** The live cells of a page. */
  function Cells(p: Page): seq<Cell> {
    if p.Leaf? && p.num <= |p.slots| then p.slots[..p.num] else []
  }

  /** The index of the first key >= k. */
  ghost predicate IsLowerBound(keys: seq<Key>, k: int, i: nat) {
    && i <= |keys|
    && (forall j :: 0 <= j < i ==> keys[j] < k)
    && (forall j :: i <= j < |keys| ==> k <= keys[j])
  }

  ghost predicate IsCellBound(cells: seq<Cell>, k: int, i: nat) {
    && i <= |cells|
    && (forall j :: 0 <= j < i ==> cells[j].key < k)
    && (forall j :: i <= j < |cells| ==> k <= cells[j].key)
  }

  /** Binary search over the live cells of a leaf. */
  method LeafNodeFind(page: Page, key: Key) returns (low: nat)
    requires page.Leaf? && page.num <= |page.slots| && SortedCells(Cells(page))
    ensures IsCellBound(Cells(page), key, low)
  {
    low := 0;
    var high := page.num;
    while low < high
      invariant 0 <= low <= high <= page.num
      invariant forall j :: 0 <= j < low ==> page.slots[j].key < key
      invariant forall j :: high <= j < page.num ==> key <= page.slots[j].key
    {
      var mid := low + (high - low) / 2;
      var nodeKey := Cells(page)[mid].key;
      if nodeKey == key {
        return mid;
      }
      if nodeKey < key {
        low := mid + 1;
      } else {
        high := mid;
      }
    }
  }

  /** Binary search over the separators of an internal node. */
  method InternalNodeFind(page: Page, key: Key) returns (low: nat)
    requires page.Internal? && Sorted(page.keys)
    ensures IsLowerBound(page.keys, key, low)
  {
    low := 0;
    var high := |page.keys|;
    while low < high
      invariant 0 <= low <= high <= |page.keys|
      invariant forall j :: 0 <= j < low ==> page.keys[j] < key
      invariant forall j :: high <= j < |page.keys| ==> key <= page.keys[j]
    {
      var mid := low + (high - low) / 2;
      if page.keys[mid] == key {
        return mid;
      }
      if page.keys[mid] < key {
        low := mid + 1;
      } else {
        high := mid;
      }
    }
  }

  /** The child a descent takes: the number of separators <= k. */
  function Slot(keys: seq<Key>, k: Key): (i: nat)
    ensures i <= |keys|
    ensures i > 0 ==> keys[i - 1] <= k
    ensures forall j :: i <= j < |keys| ==> k < keys[j]
  {
    if keys == [] || keys[|keys| - 1] <= k then |keys| else Slot(keys[..|keys| - 1], k)
  }

  /** The linear scan from the right in `leaf_node_for_key`. */
  method DescendSlot(page: Page, key: Key) returns (i: nat)
    requires page.Internal?
    ensures i == Slot(page.keys, key)
  {
    i := |page.keys|;
    while i > 0 && page.keys[i - 1] > key
      invariant i <= |page.keys|
      invariant Slot(page.keys, key) == Slot(page.keys[..i], key)
    {
      assert page.keys[..i][..i - 1] == page.keys[..i - 1];
      i := i - 1;
    }
    assert page.keys[..|page.keys|] == page.keys;
  }

  /** The slots after `leaf_node_insert` at index c: live cells shift right over one stale slot. */
  function InsertSlot(page: Page, c: nat, cell: Cell): (r: Page)
    requires page.Leaf? && c <= page.num <= |page.slots|
    ensures r.Leaf? && r.num <= |r.slots|
    ensures Cells(r) == Cells(page)[..c] + [cell] + Cells(page)[c..]
    ensures |r.slots| == if page.num < |page.slots| then |page.slots| else page.num + 1
  {
    var tail := if page.num < |page.slots| then page.slots[page.num + 1..] else [];
    page.(num := page.num + 1,
          slots := page.slots[..c] + [cell] + page.slots[c..page.num] + tail)
  }

  /** The slots after one step of `delete_command`: the last live slot keeps its old bytes. */
  function RemoveSlot(page: Page, i: nat): (r: Page)
    requires page.Leaf? && i < page.num <= |page.slots|
    ensures r.Leaf? && r.num == page.num - 1 && |r.slots| == |page.slots|
    ensures Cells(r) == Cells(page)[..i] + Cells(page)[i + 1..]
  {
    page.(num := page.num - 1,
          slots := page.slots[..i] + page.slots[i + 1..page.num] + page.slots[page.num - 1..])
  }

  /** `internal_node_insert`: the kid at index j becomes `left`, followed by key and `right`. */
  function InsertKid(page: Page, j: nat, key: Key, left: nat, right: nat): (r: Page)
    requires page.Internal? && j <= |page.keys| && |page.kids| == |page.keys| + 1
    ensures r.Internal? && |r.keys| == |page.keys| + 1 && |r.kids| == |page.kids| + 1
  {
    page.(keys := page.keys[..j] + [key] + page.keys[j..],
          kids := page.kids[..j] + [left, right] + page.kids[j + 1..])
  }

  /** The halves of an overfull internal node; keys[INTERNAL_MID] moves up. */
  function LeftHalf(n: Page): Page
    requires n.Internal? && |n.keys| == INTERNAL_NODE_MAX_KEYS + 1 && |n.kids| == |n.keys| + 1
  {
    n.(isRoot := false, keys := n.keys[..INTERNAL_MID], kids := n.kids[..INTERNAL_MID + 1])
  }

  function RightHalf(n: Page): Page
    requires n.Internal? && |n.keys| == INTERNAL_NODE_MAX_KEYS + 1 && |n.kids| == |n.keys| + 1
  {
    n.(isRoot := false, keys := n.keys[INTERNAL_MID + 1..], kids := n.kids[INTERNAL_MID + 1..])
  }
}
