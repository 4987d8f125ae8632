/** The 4096-byte layout of leaf and internal pages, and the edits `src/btree.c` and
    `delete_command` make in place on those bytes. */
module PageBytes {
  import opened Rows
  import opened Pages
  import opened Trees
  import opened Bulk
  import opened Codec

  const NODE_LEAF: byte := 0
  const NODE_INTERNAL: byte := 1
  const PARENT_POINTER_OFFSET: nat := 2
  const NUM_CELLS_OFFSET: nat := 6
  const RIGHT_CHILD_OFFSET: nat := 10
  const HEADER_SIZE: nat := 14
  const KID_SIZE: nat := 12
  const UINT32_END: nat := 0x1_0000_0000

  // The layout

  /** Node type, is-root flag, parent, count of cells, and next leaf or right child. */
  function Header(kind: byte, isRoot: bool, parent: nat, num: nat, link: nat): (h: seq<byte>)
    ensures |h| == HEADER_SIZE
  {
    [kind, if isRoot then 1 else 0] + Uint32(parent) + Uint32(num) + Uint32(link)
  }

  /** A page buffer starts out as zero bytes. */
  function Padded(s: seq<byte>): seq<byte> {
    s + Zeros(if |s| < PAGE_SIZE then PAGE_SIZE - |s| else 0)
  }

  function CellBytes(c: Cell): seq<byte> { KeyBytes(c.key) + RowBytes(c.row) }

  function CellsBytes(cells: seq<Cell>): seq<byte> {
    if cells == [] then [] else CellsBytes(cells[..|cells| - 1]) + CellBytes(cells[|cells| - 1])
  }

  function LeafHeader(p: Page): (h: seq<byte>)
    requires p.Leaf?
    ensures |h| == HEADER_SIZE
  {
    Header(NODE_LEAF, p.isRoot, p.parent, p.num, p.next)
  }

  lemma CellsOfThree(a: seq<Cell>, b: seq<Cell>, c: seq<Cell>)
    ensures CellsBytes(a + b + c) == CellsBytes(a) + CellsBytes(b) + CellsBytes(c)
  {
    CellsConcat(a, b);
    CellsConcat(a + b, c);
  }

  function LeafBytes(p: Page): seq<byte>
    requires p.Leaf?
  {
    Padded(LeafHeader(p) + CellsBytes(p.slots))
  }

  /** An internal cell: a separator and the child to its left. */
  function KidBytes(key: Key, kid: nat): (b: seq<byte>)
    ensures |b| == KID_SIZE
  {
    KeyBytes(key) + Uint32(kid)
  }

  function KidsBytes(keys: seq<Key>, kids: seq<nat>): (b: seq<byte>)
    requires |keys| <= |kids|
    ensures |b| == KID_SIZE * |keys|
  {
    if keys == [] then []
    else
      var n := |keys| - 1;
      KidsBytes(keys[..n], kids[..n]) + KidBytes(keys[n], kids[n])
  }

  function InternalHeader(p: Page): (h: seq<byte>)
    requires p.Internal? && |p.kids| == |p.keys| + 1
    ensures |h| == HEADER_SIZE
  {
    Header(NODE_INTERNAL, p.isRoot, p.parent, |p.keys|, p.kids[|p.keys|])
  }

  function InternalBytes(p: Page): seq<byte>
    requires p.Internal? && |p.kids| == |p.keys| + 1
  {
    Padded(InternalHeader(p) + KidsBytes(p.keys, p.kids))
  }

  function CellSize(s: Schema): nat { KEY_SIZE + RowSize(s.columns) }

  /** Cells of the schema's types, whole cells only, and fields that fit their 32 bits. */
  ghost predicate LeafFits(p: Page, s: Schema) {
    && p.Leaf? && p.num <= |p.slots| <= LeafMaxCells(s)
    && (forall c <- p.slots :: RowHasTypes(s.columns, c.row))
    && p.parent < UINT32_END && p.next < UINT32_END
  }

  ghost predicate InternalFits(p: Page) {
    && p.Internal? && |p.kids| == |p.keys| + 1 && |p.keys| <= INTERNAL_NODE_MAX_KEYS
    && (forall kid <- p.kids :: kid < UINT32_END)
    && p.parent < UINT32_END
  }

  function Field(b: seq<byte>, at: nat): nat
    requires at + 4 <= |b|
  {
    FromLittleEndian(b[at..at + 4])
  }

  // Reading a page

  lemma FieldRoundTrip(b: seq<byte>, at: nat, x: nat)
    requires x < UINT32_END && at + 4 <= |b| && b[at..at + 4] == Uint32(x)
    ensures Field(b, at) == x
  {
    assert Pow256(4) == UINT32_END;
    LittleEndianRoundTrip(x, 4);
  }

  lemma HeaderReads(b: seq<byte>, kind: byte, isRoot: bool, parent: nat, num: nat, link: nat)
    requires |b| >= HEADER_SIZE && b[..HEADER_SIZE] == Header(kind, isRoot, parent, num, link)
    requires parent < UINT32_END && num < UINT32_END && link < UINT32_END
    ensures b[0] == kind && b[1] == (if isRoot then 1 else 0)
    ensures Field(b, PARENT_POINTER_OFFSET) == parent
    ensures Field(b, NUM_CELLS_OFFSET) == num
    ensures Field(b, RIGHT_CHILD_OFFSET) == link
  {
    var h := Header(kind, isRoot, parent, num, link);
    assert b[0] == h[0] && b[1] == h[1];
    assert b[2..6] == h[2..6] == Uint32(parent);
    assert b[6..10] == h[6..10] == Uint32(num);
    assert b[10..14] == h[10..14] == Uint32(link);
    FieldRoundTrip(b, 2, parent);
    FieldRoundTrip(b, 6, num);
    FieldRoundTrip(b, 10, link);
  }

  lemma {:induction false} CellsConcat(a: seq<Cell>, b: seq<Cell>)
    ensures CellsBytes(a + b) == CellsBytes(a) + CellsBytes(b)
  {
    if b == [] {
      assert a + b == a;
    } else {
      var front, last := b[..|b| - 1], CellBytes(b[|b| - 1]);
      assert (a + b)[..|a + b| - 1] == a + front;
      CellsConcat(a, front);
      assert CellsBytes(a + b) == CellsBytes(a + front) + last;
      assert CellsBytes(b) == CellsBytes(front) + last;
    }
  }

  ghost predicate Uniform(cells: seq<Cell>, w: nat) {
    forall c <- cells :: |CellBytes(c)| == w
  }

  lemma {:induction false} CellsLength(cells: seq<Cell>, w: nat)
    requires Uniform(cells, w)
    ensures |CellsBytes(cells)| == |cells| * w
  {
    if cells != [] {
      var n := |cells| - 1;
      assert cells[n] in cells;
      CellsLength(cells[..n], w);
      OneMore(n, w, |CellsBytes(cells[..n])|, |CellsBytes(cells)|);
    }
  }

  lemma OneMore(n: nat, w: nat, before: nat, after: nat)
    requires before == n * w && after == before + w
    ensures after == (n + 1) * w
  {
  }

  lemma FitsUniform(p: Page, s: Schema)
    requires LeafFits(p, s)
    ensures Uniform(p.slots, CellSize(s))
  {
    forall c <- p.slots ensures |CellBytes(c)| == CellSize(s) {
      RowRoundTrip(s.columns, c.row);
    }
  }

  lemma CellsFit(w: nat, i: nat, n: nat)
    requires 0 < w && i <= n <= LEAF_NODE_SPACE_FOR_CELLS / w
    ensures i * w <= n * w <= LEAF_NODE_SPACE_FOR_CELLS
  {
    assert n * w <= (LEAF_NODE_SPACE_FOR_CELLS / w) * w;
  }

  lemma LeafPadding(p: Page, w: nat)
    requires p.Leaf? && 0 < w && |p.slots| <= LEAF_NODE_SPACE_FOR_CELLS / w
    requires Uniform(p.slots, w)
    ensures |CellsBytes(p.slots)| == |p.slots| * w <= LEAF_NODE_SPACE_FOR_CELLS
    ensures LeafBytes(p) == LeafHeader(p) + CellsBytes(p.slots) + Zeros(LEAF_NODE_SPACE_FOR_CELLS - |p.slots| * w)
  {
    CellsFit(w, 0, |p.slots|);
    CellsLength(p.slots, w);
  }

  /** The bytes behind a leaf's header and the cells in front of `c`. */
  function Rest(c: seq<Cell>, n: nat, w: nat): (r: seq<byte>)
  {
    CellsBytes(c) + Zeros(if n * w <= LEAF_NODE_SPACE_FOR_CELLS then LEAF_NODE_SPACE_FOR_CELLS - n * w else 0)
  }

  /** A leaf's bytes cut between three runs of cells. */
  lemma LeafCut(p: Page, w: nat, a: seq<Cell>, b: seq<Cell>, c: seq<Cell>)
    requires p.Leaf? && p.slots == a + b + c && 0 < w && |p.slots| <= LEAF_NODE_SPACE_FOR_CELLS / w
    requires Uniform(p.slots, w)
    ensures |CellsBytes(a)| == |a| * w && |CellsBytes(a) + CellsBytes(b)| == |a + b| * w
    ensures |LeafBytes(p)| == PAGE_SIZE
    ensures LeafBytes(p) == LeafHeader(p) + CellsBytes(a) + CellsBytes(b) + Rest(c, |p.slots|, w)
  {
    UniformParts(a, b, c, w);
    LeafPadding(p, w);
    CellsOfThree(a, b, c);
    CellsConcat(a, b);
    CellsLength(a, w);
    CellsLength(a + b, w);
    Regroup(LeafHeader(p), CellsBytes(a), CellsBytes(b), CellsBytes(c), Zeros(LEAF_NODE_SPACE_FOR_CELLS - |p.slots| * w));
  }

  lemma Regroup(h: seq<byte>, a: seq<byte>, b: seq<byte>, c: seq<byte>, z: seq<byte>)
    ensures h + (a + b + c) + z == h + a + b + (c + z)
  {
  }

  lemma UniformParts(a: seq<Cell>, b: seq<Cell>, c: seq<Cell>, w: nat)
    ensures Uniform(a + b + c, w) <==> Uniform(a, w) && Uniform(b, w) && Uniform(c, w)
    ensures Uniform(a + b + c, w) ==> Uniform(a + b, w)
  {
    assert forall x :: x in a + b + c <==> x in a || x in b || x in c;
    assert forall x :: x in a + b <==> x in a || x in b;
  }

  // Editing a page

  method WriteField(b: array<byte>, at: nat, x: nat)
    requires at + 4 <= b.Length
    modifies b
    ensures b[..] == old(b[..at]) + Uint32(x) + old(b[at + 4..])
  {
    var bytes := Uint32(x);
    forall k | 0 <= k < 4 {
      b[at + k] := bytes[k];
    }
  }

  method ReadField(b: array<byte>, at: nat) returns (x: nat)
    requires at + 4 <= b.Length
    ensures x == Field(b[..], at)
  {
    assert b[..][at..at + 4] == b[at..at + 4];
    x := FromLittleEndian(b[at..at + 4]);
  }

  /** memmove the `len` bytes at `at` up by |new| and store `new` in the gap. */
  method OpenGap(b: array<byte>, at: nat, len: nat, new_: seq<byte>)
    requires at + len + |new_| <= b.Length
    modifies b
    ensures b[..] == old(b[..at]) + new_ + old(b[at..at + len]) + old(b[at + len + |new_|..])
  {
    forall k | 0 <= k < len {
      b[at + |new_| + k] := b[at + k];
    }
    forall k | 0 <= k < |new_| {
      b[at + k] := new_[k];
    }
  }

  /** memmove the `len` bytes behind a cell of w bytes down over it. */
  method CloseGap(b: array<byte>, at: nat, w: nat, len: nat)
    requires at + w + len <= b.Length
    modifies b
    ensures b[..] == old(b[..at]) + old(b[at + w..at + w + len]) + old(b[at + len..])
  {
    forall k | 0 <= k < len {
      b[at + k] := b[at + w + k];
    }
  }

  // Leaf insert and delete

  lemma OneCell(c: Cell)
    ensures CellsBytes([c]) == CellBytes(c)
  {
    assert [c][..0] == [];
    assert CellsBytes([]) == [];
  }

  /** The bytes behind the gap: one stale cell, or one cell of zeros, gets overwritten. */
  lemma BehindGap(stale: seq<Cell>, w: nat, n: nat)
    requires Uniform(stale, w) && n * w <= LEAF_NODE_SPACE_FOR_CELLS
    requires stale == [] ==> (n + 1) * w <= LEAF_NODE_SPACE_FOR_CELLS
    ensures |Rest(stale, n, w)| >= w
    ensures Rest(stale, n, w)[w..] == Rest(Tail(stale), if stale == [] then n + 1 else n, w)
  {
    if stale != [] {
      assert stale[0] in stale;
      OneCell(stale[0]);
      CellsConcat([stale[0]], stale[1..]);
      assert [stale[0]] + stale[1..] == stale;
    } else {
      assert (n + 1) * w == n * w + w;
    }
  }

  lemma RestShifted(m: seq<Cell>, stale: seq<Cell>, w: nat, n: nat)
    requires Uniform(stale, w) && n * w <= LEAF_NODE_SPACE_FOR_CELLS
    requires stale == [] ==> (n + 1) * w <= LEAF_NODE_SPACE_FOR_CELLS
    ensures |Rest(stale, n, w)| >= w
    ensures Rest(m + Tail(stale), if stale == [] then n + 1 else n, w) == CellsBytes(m) + Rest(stale, n, w)[w..]
  {
    BehindGap(stale, w, n);
    CellsConcat(m, Tail(stale));
  }

  function Tail(s: seq<Cell>): seq<Cell> { if s == [] then [] else s[1..] }

  function WithNum(h: seq<byte>, num: nat): seq<byte>
    requires |h| == HEADER_SIZE
  {
    h[..NUM_CELLS_OFFSET] + Uint32(num) + h[RIGHT_CHILD_OFFSET..]
  }

  function WithCell(b: seq<byte>, num: nat, at: nat, end: nat, cell: seq<byte>): seq<byte>
    requires HEADER_SIZE <= at <= end <= end + |cell| <= |b|
  {
    WithNum(b[..HEADER_SIZE], num) + b[HEADER_SIZE..at] + cell + b[at..end] + b[end + |cell|..]
  }

  lemma HeaderWithNum(p: Page, r: Page)
    requires p.Leaf? && r.Leaf? && r == p.(num := r.num, slots := r.slots)
    ensures LeafHeader(r) == WithNum(LeafHeader(p), r.num)
  {
    var h := [NODE_LEAF, if p.isRoot then 1 else 0] + Uint32(p.parent);
    var n, link := Uint32(p.num), Uint32(p.next);
    assert LeafHeader(p) == h + n + link;
    assert LeafHeader(p)[..6] == h && LeafHeader(p)[10..] == link;
  }

  lemma WithCellParts(b: seq<byte>, num: nat, h: seq<byte>, a: seq<byte>, m: seq<byte>, rest: seq<byte>, cell: seq<byte>,
                      i: nat, j: nat, w: nat)
    requires |h| == HEADER_SIZE && |cell| == w <= |rest| && b == h + a + m + rest
    requires |a| == i && |a + m| == j
    ensures HEADER_SIZE + j + w <= |b|
    ensures WithCell(b, num, HEADER_SIZE + i, HEADER_SIZE + j, cell) == WithNum(h, num) + a + cell + (m + rest[w..])
  {
    var at, end := HEADER_SIZE + i, HEADER_SIZE + j;
    assert b[..HEADER_SIZE] == h && b[HEADER_SIZE..at] == a && b[at..end] == m;
    assert b[end + w..] == rest[w..];
  }

  /** The leaf with `cell` stored behind the cells `a`; one stale slot of `stale` is overwritten. */
  function WithSlots(p: Page, a: seq<Cell>, cell: Cell, m: seq<Cell>, stale: seq<Cell>): Page
    requires p.Leaf?
  {
    p.(num := p.num + 1, slots := a + [cell] + (m + Tail(stale)))
  }

  ghost predicate CanTakeCell(p: Page, w: nat, a: seq<Cell>, m: seq<Cell>, stale: seq<Cell>) {
    && p.Leaf? && 0 < w && p.num < LEAF_NODE_SPACE_FOR_CELLS / w && |p.slots| <= LEAF_NODE_SPACE_FOR_CELLS / w
    && p.slots == a + m + stale && p.num == |a + m| && Uniform(p.slots, w)
  }

  lemma BeforeInsert(p: Page, w: nat, a: seq<Cell>, m: seq<Cell>, stale: seq<Cell>)
    requires CanTakeCell(p, w, a, m, stale)
    ensures |a| * w <= p.num * w <= LEAF_NODE_SPACE_FOR_CELLS - w
    ensures |CellsBytes(a)| == |a| * w && |CellsBytes(a) + CellsBytes(m)| == p.num * w
    ensures |Rest(stale, |p.slots|, w)| >= w && |LeafBytes(p)| == PAGE_SIZE
    ensures LeafBytes(p) == LeafHeader(p) + CellsBytes(a) + CellsBytes(m) + Rest(stale, |p.slots|, w)
  {
    UniformParts(a, m, stale, w);
    LeafCut(p, w, a, m, stale);
    CellsFit(w, p.num, p.num + 1);
    CellsFit(w, |a|, p.num);
    CellsFit(w, 0, |p.slots|);
    RestShifted(m, stale, w, |p.slots|);
  }

  lemma RoomForCell(p: Page, w: nat, a: seq<Cell>, cell: Cell, m: seq<Cell>, stale: seq<Cell>)
    requires CanTakeCell(p, w, a, m, stale) && |CellBytes(cell)| == w
    ensures Uniform(a + [cell] + (m + Tail(stale)), w) && Uniform(stale, w)
    ensures |a + [cell] + (m + Tail(stale))| == if stale == [] then |p.slots| + 1 else |p.slots|
    ensures stale == [] ==> |p.slots| == p.num
    ensures p.num + 1 <= LEAF_NODE_SPACE_FOR_CELLS / w
  {
    UniformParts(a, m, stale, w);
    UniformParts(m, Tail(stale), [], w);
    assert m + Tail(stale) + [] == m + Tail(stale);
    UniformParts(a, [cell], m + Tail(stale), w);
  }

  lemma AfterInsert(p: Page, w: nat, a: seq<Cell>, cell: Cell, m: seq<Cell>, stale: seq<Cell>)
    requires CanTakeCell(p, w, a, m, stale) && |CellBytes(cell)| == w
    ensures |Rest(stale, |p.slots|, w)| >= w
    ensures LeafBytes(WithSlots(p, a, cell, m, stale))
         == WithNum(LeafHeader(p), p.num + 1) + CellsBytes(a) + CellBytes(cell)
            + (CellsBytes(m) + Rest(stale, |p.slots|, w)[w..])
  {
    var n := |p.slots|;
    RoomForCell(p, w, a, cell, m, stale);
    CellsFit(w, p.num, p.num + 1);
    CellsFit(w, 0, n);
    RestShifted(m, stale, w, n);
    LeafCut(WithSlots(p, a, cell, m, stale), w, a, [cell], m + Tail(stale));
    OneCell(cell);
    HeaderWithNum(p, WithSlots(p, a, cell, m, stale));
  }

  /** `leaf_node_cell`. */
  function CellOffset(w: nat, i: nat): nat { HEADER_SIZE + i * w }

  /** Shifting the cells behind `a` up by one, storing the new one and counting it. */
  lemma LeafBytesInsert(p: Page, w: nat, a: seq<Cell>, cell: Cell, m: seq<Cell>, stale: seq<Cell>)
    requires CanTakeCell(p, w, a, m, stale) && |CellBytes(cell)| == w
    ensures HEADER_SIZE <= CellOffset(w, |a|) <= CellOffset(w, p.num) <= PAGE_SIZE - w && |LeafBytes(p)| == PAGE_SIZE
    ensures LeafBytes(WithSlots(p, a, cell, m, stale))
         == WithCell(LeafBytes(p), p.num + 1, CellOffset(w, |a|), CellOffset(w, p.num), CellBytes(cell))
  {
    BeforeInsert(p, w, a, m, stale);
    AfterInsert(p, w, a, cell, m, stale);
    WithCellIs(LeafBytes(p), p.num + 1, LeafHeader(p), CellsBytes(a), CellsBytes(m), Rest(stale, |p.slots|, w),
               CellBytes(cell), CellOffset(w, |a|), CellOffset(w, p.num), w, LeafBytes(WithSlots(p, a, cell, m, stale)));
  }

  lemma WithCellIs(b: seq<byte>, num: nat, h: seq<byte>, a: seq<byte>, m: seq<byte>, rest: seq<byte>, cell: seq<byte>,
                   at: nat, end: nat, w: nat, out: seq<byte>)
    requires |h| == HEADER_SIZE && |cell| == w <= |rest| && b == h + a + m + rest
    requires at == HEADER_SIZE + |a| && end == HEADER_SIZE + |a + m|
    requires out == WithNum(h, num) + a + cell + (m + rest[w..])
    ensures end + w <= |b| && out == WithCell(b, num, at, end, cell)
  {
    WithCellParts(b, num, h, a, m, rest, cell, |a|, |a + m|, w);
  }

  /** The bytes after a cell of w bytes at `at` is closed over: the last cell's bytes stay behind `end`. */
  function WithoutCell(b: seq<byte>, num: nat, at: nat, end: nat, w: nat): seq<byte>
    requires HEADER_SIZE <= at && at + w <= end <= |b|
  {
    WithNum(b[..HEADER_SIZE], num) + b[HEADER_SIZE..at] + b[at + w..end] + b[end - w..]
  }

  lemma WithoutCellParts(b: seq<byte>, num: nat, h: seq<byte>, a: seq<byte>, x: seq<byte>, m: seq<byte>,
                         f: seq<byte>, l: seq<byte>, rest: seq<byte>, at: nat, end: nat, w: nat,
                         out: seq<byte>)
    requires |h| == HEADER_SIZE && out == WithNum(h, num) + a + m + (l + rest)
    requires b == h + a + (x + m) + rest
    requires x + m == f + l && |x| == |l| == w && at == HEADER_SIZE + |a| && end == HEADER_SIZE + |a + (x + m)|
    ensures end <= |b| && HEADER_SIZE <= at && at + w <= end
    ensures out == WithoutCell(b, num, at, end, w)
  {
    assert b[..HEADER_SIZE] == h && b[HEADER_SIZE..at] == a;
    assert b[at..end] == x + m && b[at + w..end] == m;
    assert b == h + a + f + (l + rest);
    assert b[end - w..] == l + rest;
  }

  function Last(s: seq<Cell>): Cell requires s != [] { s[|s| - 1] }

  lemma Ends(live: seq<Cell>, w: nat)
    requires live != [] && Uniform(live, w)
    ensures |CellBytes(live[0])| == |CellBytes(Last(live))| == w && Uniform(live[1..], w)
    ensures CellsBytes(live) == CellBytes(live[0]) + CellsBytes(live[1..])
    ensures CellsBytes(live) == CellsBytes(live[..|live| - 1]) + CellBytes(Last(live))
  {
    assert live[0] in live && Last(live) in live;
    assert [live[0]] + live[1..] == live;
    CellsConcat([live[0]], live[1..]);
    OneCell(live[0]);
  }

  /** The leaf without the first cell of `live`: its last live slot keeps its bytes. */
  function WithoutSlot(p: Page, a: seq<Cell>, live: seq<Cell>, stale: seq<Cell>): Page
    requires p.Leaf? && p.num > 0 && live != []
  {
    p.(num := p.num - 1, slots := a + live[1..] + ([Last(live)] + stale))
  }

  ghost predicate HasCell(p: Page, w: nat, a: seq<Cell>, live: seq<Cell>, stale: seq<Cell>) {
    && p.Leaf? && 0 < w && |p.slots| <= LEAF_NODE_SPACE_FOR_CELLS / w && Uniform(p.slots, w)
    && p.slots == a + live + stale && p.num == |a + live| && live != []
  }

  lemma StillUniform(p: Page, w: nat, a: seq<Cell>, live: seq<Cell>, stale: seq<Cell>)
    requires HasCell(p, w, a, live, stale)
    ensures Uniform(a + live[1..] + ([Last(live)] + stale), w)
    ensures |a + live[1..] + ([Last(live)] + stale)| == |p.slots|
  {
    var last := [Last(live)];
    UniformParts(a, live, stale, w);
    Ends(live, w);
    UniformParts(last, stale, [], w);
    assert last + stale + [] == last + stale;
    UniformParts(a, live[1..], last + stale, w);
  }

  lemma BeforeDelete(p: Page, w: nat, a: seq<Cell>, live: seq<Cell>, stale: seq<Cell>)
    requires HasCell(p, w, a, live, stale)
    ensures |CellBytes(live[0])| == |CellBytes(Last(live))| == w && |CellsBytes(a)| == |a| * w
    ensures |CellsBytes(a) + (CellBytes(live[0]) + CellsBytes(live[1..]))| == p.num * w
    ensures CellBytes(live[0]) + CellsBytes(live[1..]) == CellsBytes(live[..|live| - 1]) + CellBytes(Last(live))
    ensures LeafBytes(p) == LeafHeader(p) + CellsBytes(a) + (CellBytes(live[0]) + CellsBytes(live[1..]))
                            + Rest(stale, |p.slots|, w)
    ensures |LeafBytes(p)| == PAGE_SIZE
    ensures |a| * w + w <= p.num * w <= LEAF_NODE_SPACE_FOR_CELLS
  {
    UniformParts(a, live, stale, w);
    Ends(live, w);
    LeafCut(p, w, a, live, stale);
    CellsFit(w, |a| + 1, p.num);
  }

  lemma AfterDelete(p: Page, w: nat, a: seq<Cell>, live: seq<Cell>, stale: seq<Cell>)
    requires HasCell(p, w, a, live, stale)
    ensures LeafBytes(WithoutSlot(p, a, live, stale))
         == WithNum(LeafHeader(p), p.num - 1) + CellsBytes(a) + CellsBytes(live[1..])
            + (CellBytes(Last(live)) + Rest(stale, |p.slots|, w))
  {
    StillUniform(p, w, a, live, stale);
    LeafCut(WithoutSlot(p, a, live, stale), w, a, live[1..], [Last(live)] + stale);
    HeaderWithNum(p, WithoutSlot(p, a, live, stale));
    RestBehind(Last(live), stale, |p.slots|, w);
  }

  lemma RestBehind(x: Cell, stale: seq<Cell>, n: nat, w: nat)
    ensures Rest([x] + stale, n, w) == CellBytes(x) + Rest(stale, n, w)
  {
    OneCell(x);
    CellsConcat([x], stale);
  }

  /** Shifting the cells of `live` down over its first and counting one less. */
  lemma LeafBytesDelete(p: Page, w: nat, a: seq<Cell>, live: seq<Cell>, stale: seq<Cell>)
    requires HasCell(p, w, a, live, stale)
    ensures HEADER_SIZE <= CellOffset(w, |a|) <= CellOffset(w, p.num) - w <= PAGE_SIZE - w && |LeafBytes(p)| == PAGE_SIZE
    ensures LeafBytes(WithoutSlot(p, a, live, stale))
         == WithoutCell(LeafBytes(p), p.num - 1, CellOffset(w, |a|), CellOffset(w, p.num), w)
  {
    BeforeDelete(p, w, a, live, stale);
    AfterDelete(p, w, a, live, stale);
    WithoutCellParts(LeafBytes(p), p.num - 1, LeafHeader(p), CellsBytes(a), CellBytes(live[0]), CellsBytes(live[1..]),
                     CellsBytes(live[..|live| - 1]), CellBytes(Last(live)), Rest(stale, |p.slots|, w),
                     CellOffset(w, |a|), CellOffset(w, p.num), w, LeafBytes(WithoutSlot(p, a, live, stale)));
  }

  lemma GapThenCount(b: seq<byte>, c: seq<byte>, num: nat, at: nat, end: nat, cell: seq<byte>)
    requires HEADER_SIZE <= at <= end <= end + |cell| <= |b|
    requires c == b[..at] + cell + b[at..end] + b[end + |cell|..]
    ensures |c| == |b|
    ensures c[..NUM_CELLS_OFFSET] + Uint32(num) + c[NUM_CELLS_OFFSET + 4..] == WithCell(b, num, at, end, cell)
  {
    var tail := cell + b[at..end] + b[end + |cell|..];
    assert c == b[..at] + tail && b[..at] == b[..HEADER_SIZE] + b[HEADER_SIZE..at];
    assert c[..6] == b[..HEADER_SIZE][..6];
    assert c[10..] == b[..HEADER_SIZE][10..] + b[HEADER_SIZE..at] + tail;
  }

  lemma CloseThenCount(b: seq<byte>, c: seq<byte>, num: nat, at: nat, end: nat, w: nat)
    requires HEADER_SIZE <= at && at + w <= end <= |b|
    requires c == b[..at] + b[at + w..end] + b[end - w..]
    ensures |c| == |b|
    ensures c[..NUM_CELLS_OFFSET] + Uint32(num) + c[NUM_CELLS_OFFSET + 4..] == WithoutCell(b, num, at, end, w)
  {
    var tail := b[at + w..end] + b[end - w..];
    assert c == b[..at] + tail && b[..at] == b[..HEADER_SIZE] + b[HEADER_SIZE..at];
    assert c[..6] == b[..HEADER_SIZE][..6];
    assert c[10..] == b[..HEADER_SIZE][10..] + b[HEADER_SIZE..at] + tail;
  }

  /** memmove the cells between `at` and `end`, store `cell` and the new count. */
  method InsertCellAt(b: array<byte>, num: nat, at: nat, end: nat, cell: seq<byte>)
    requires HEADER_SIZE <= at <= end <= end + |cell| <= b.Length
    modifies b
    ensures b[..] == WithCell(old(b[..]), num, at, end, cell)
  {
    ghost var was := b[..];
    OpenGap(b, at, end - at, cell);
    assert b[..] == was[..at] + cell + was[at..end] + was[end + |cell|..];
    GapThenCount(was, b[..], num, at, end, cell);
    WriteField(b, NUM_CELLS_OFFSET, num);
  }

  method DeleteCellAt(b: array<byte>, num: nat, at: nat, end: nat, w: nat)
    requires HEADER_SIZE <= at && at + w <= end <= b.Length
    modifies b
    ensures b[..] == WithoutCell(old(b[..]), num, at, end, w)
  {
    ghost var was := b[..];
    CloseGap(b, at, w, end - at - w);
    assert b[..] == was[..at] + was[at + w..end] + was[end - w..];
    CloseThenCount(was, b[..], num, at, end, w);
    WriteField(b, NUM_CELLS_OFFSET, num);
  }

  /** Every header field of a leaf's bytes reads back as the page has it. */
  lemma LeafFields(p: Page, w: nat)
    requires p.Leaf? && 0 < w && p.num <= |p.slots| <= LEAF_NODE_SPACE_FOR_CELLS / w && Uniform(p.slots, w)
    requires p.parent < UINT32_END && p.next < UINT32_END
    ensures |LeafBytes(p)| == PAGE_SIZE
    ensures Field(LeafBytes(p), NUM_CELLS_OFFSET) == p.num
    ensures Field(LeafBytes(p), RIGHT_CHILD_OFFSET) == p.next
    ensures Field(LeafBytes(p), PARENT_POINTER_OFFSET) == p.parent
    ensures LeafBytes(p)[0] == NODE_LEAF && LeafBytes(p)[1] == if p.isRoot then 1 else 0
  {
    LeafPadding(p, w);
    SmallCount(w, p.num);
    HeaderFirst(LeafBytes(p), LeafHeader(p), CellsBytes(p.slots), Zeros(LEAF_NODE_SPACE_FOR_CELLS - |p.slots| * w));
    HeaderReads(LeafBytes(p), NODE_LEAF, p.isRoot, p.parent, p.num, p.next);
  }

  lemma SmallCount(w: nat, n: nat)
    requires 0 < w && n <= LEAF_NODE_SPACE_FOR_CELLS / w
    ensures n <= LEAF_NODE_SPACE_FOR_CELLS
  {
  }

  lemma HeaderFirst(b: seq<byte>, h: seq<byte>, cells: seq<byte>, zeros: seq<byte>)
    requires b == h + cells + zeros
    ensures b[..|h|] == h
  {
  }

  ghost predicate LeafOfWidth(p: Page, w: nat) {
    p.Leaf? && 0 < w && p.num <= |p.slots| <= LEAF_NODE_SPACE_FOR_CELLS / w && Uniform(p.slots, w)
  }

  lemma SlotsAtInsert(p: Page, c: nat, cell: Cell)
    requires p.Leaf? && c <= p.num <= |p.slots|
    ensures p.slots == p.slots[..c] + p.slots[c..p.num] + p.slots[p.num..]
    ensures InsertSlot(p, c, cell) == WithSlots(p, p.slots[..c], cell, p.slots[c..p.num], p.slots[p.num..])
  {
    var stale := p.slots[p.num..];
    assert stale != [] ==> stale[1..] == p.slots[p.num + 1..];
    assert InsertSlot(p, c, cell).slots == p.slots[..c] + [cell] + (p.slots[c..p.num] + Tail(stale));
  }

  lemma SlotsAtDelete(p: Page, i: nat)
    requires p.Leaf? && i < p.num <= |p.slots|
    ensures p.slots == p.slots[..i] + p.slots[i..p.num] + p.slots[p.num..]
    ensures RemoveSlot(p, i) == WithoutSlot(p, p.slots[..i], p.slots[i..p.num], p.slots[p.num..])
  {
    var live, stale := p.slots[i..p.num], p.slots[p.num..];
    assert live[1..] == p.slots[i + 1..p.num];
    assert p.slots[p.num - 1..] == [Last(live)] + stale;
    assert RemoveSlot(p, i).slots == p.slots[..i] + live[1..] + ([Last(live)] + stale);
  }

  lemma InsertSlotBytes(p: Page, w: nat, c: nat, cell: Cell)
    requires LeafOfWidth(p, w) && c <= p.num < LEAF_NODE_SPACE_FOR_CELLS / w && |CellBytes(cell)| == w
    ensures |LeafBytes(p)| == PAGE_SIZE
    ensures HEADER_SIZE <= CellOffset(w, c) <= CellOffset(w, p.num) <= PAGE_SIZE - w
    ensures LeafBytes(InsertSlot(p, c, cell))
         == WithCell(LeafBytes(p), p.num + 1, CellOffset(w, c), CellOffset(w, p.num), CellBytes(cell))
  {
    var a, m, stale := p.slots[..c], p.slots[c..p.num], p.slots[p.num..];
    SlotsAtInsert(p, c, cell);
    LeafBytesInsert(p, w, a, cell, m, stale);
  }

  lemma RemoveSlotBytes(p: Page, w: nat, i: nat)
    requires LeafOfWidth(p, w) && i < p.num
    ensures |LeafBytes(p)| == PAGE_SIZE
    ensures HEADER_SIZE <= CellOffset(w, i) <= CellOffset(w, p.num) - w <= PAGE_SIZE - w
    ensures LeafBytes(RemoveSlot(p, i))
         == WithoutCell(LeafBytes(p), p.num - 1, CellOffset(w, i), CellOffset(w, p.num), w)
  {
    var a, live, stale := p.slots[..i], p.slots[i..p.num], p.slots[p.num..];
    SlotsAtDelete(p, i);
    LeafBytesDelete(p, w, a, live, stale);
  }

  lemma LeafWidth(p: Page, s: Schema)
    requires LeafFits(p, s)
    ensures LeafOfWidth(p, CellSize(s)) && LeafMaxCells(s) == LEAF_NODE_SPACE_FOR_CELLS / CellSize(s)
  {
    FitsUniform(p, s);
  }

  /** `leaf_node_insert` on the page's bytes. */
  method LeafNodeInsertBytes(b: array<byte>, ghost p: Page, s: Schema, c: nat, key: Key, row: Row) returns (ok: bool)
    requires LeafFits(p, s) && c <= p.num && RowHasTypes(s.columns, row) && b[..] == LeafBytes(p)
    modifies b
    ensures ok == (p.num < LeafMaxCells(s))
    ensures b[..] == LeafBytes(if ok then InsertSlot(p, c, Cell(key, row)) else p)
  {
    LeafWidth(p, s);
    LeafFields(p, CellSize(s));
    var num := ReadField(b, NUM_CELLS_OFFSET);
    if num >= LeafMaxCells(s) {
      return false;
    }
    RowRoundTrip(s.columns, row);
    var value := SerializeRow(row);
    InsertBytesOfWidth(b, p, CellSize(s), c, KeyBytes(key) + value, Cell(key, row));
    return true;
  }

  method InsertBytesOfWidth(b: array<byte>, ghost p: Page, w: nat, c: nat, cellBytes: seq<byte>, ghost cell: Cell)
    requires LeafOfWidth(p, w) && c <= p.num < LEAF_NODE_SPACE_FOR_CELLS / w && p.parent < UINT32_END && p.next < UINT32_END
    requires b[..] == LeafBytes(p) && cellBytes == CellBytes(cell) && |cellBytes| == w
    modifies b
    ensures b[..] == LeafBytes(InsertSlot(p, c, cell))
  {
    LeafFields(p, w);
    var num := ReadField(b, NUM_CELLS_OFFSET);
    InsertSlotBytes(p, w, c, cell);
    InsertCellAt(b, num + 1, CellOffset(w, c), CellOffset(w, num), cellBytes);
  }

  method DeleteBytesOfWidth(b: array<byte>, ghost p: Page, w: nat, i: nat)
    requires LeafOfWidth(p, w) && i < p.num && p.parent < UINT32_END && p.next < UINT32_END
    requires b[..] == LeafBytes(p)
    modifies b
    ensures b[..] == LeafBytes(RemoveSlot(p, i))
  {
    LeafFields(p, w);
    var num := ReadField(b, NUM_CELLS_OFFSET);
    RemoveSlotBytes(p, w, i);
    DeleteCellAt(b, num - 1, CellOffset(w, i), CellOffset(w, num), w);
  }

  /** One deletion of `delete_command` on the page's bytes. */
  method LeafNodeDeleteBytes(b: array<byte>, ghost p: Page, s: Schema, i: nat)
    requires LeafFits(p, s) && i < p.num && b[..] == LeafBytes(p)
    modifies b
    ensures b[..] == LeafBytes(RemoveSlot(p, i))
  {
    LeafWidth(p, s);
    DeleteBytesOfWidth(b, p, CellSize(s), i);
  }

  // Internal insert

  lemma {:induction false} KidsConcat(k1: seq<Key>, c1: seq<nat>, k2: seq<Key>, c2: seq<nat>)
    requires |c1| == |k1| && |k2| <= |c2|
    ensures KidsBytes(k1 + k2, c1 + c2) == KidsBytes(k1, c1) + KidsBytes(k2, c2)
  {
    if k2 == [] {
      KidsPrefix(k1, c1, k1 + k2, c1 + c2);
    } else {
      var n := |k2| - 1;
      KidsConcat(k1, c1, k2[..n], c2[..n]);
      KidsSnoc(k1 + k2[..n], c1 + c2[..n], k1 + k2, c1 + c2);
      KidsSnoc(k2[..n], c2[..n], k2, c2);
      Reassociate(KidsBytes(k1, c1), KidsBytes(k2[..n], c2[..n]), KidBytes(k2[n], c2[n]));
    }
  }

  /** Kids past the last separator do not show. */
  lemma KidsPrefix(keys: seq<Key>, kids: seq<nat>, keys': seq<Key>, kids': seq<nat>)
    requires |kids| == |keys| && keys' == keys && |kids| <= |kids'| && kids'[..|kids|] == kids
    ensures KidsBytes(keys', kids') == KidsBytes(keys, kids)
  {
    if keys != [] {
      var n := |keys| - 1;
      assert kids'[..n] == kids'[..|kids|][..n] && kids'[n] == kids'[..|kids|][n];
    }
  }

  lemma KidsSnoc(keys: seq<Key>, kids: seq<nat>, keys': seq<Key>, kids': seq<nat>)
    requires |kids| == |keys| && |keys'| == |keys| + 1 <= |kids'|
    requires keys'[..|keys|] == keys && kids'[..|keys|] == kids
    ensures KidsBytes(keys', kids') == KidsBytes(keys, kids) + KidBytes(keys'[|keys|], kids'[|keys|])
  {
  }

  lemma Reassociate(a: seq<byte>, b: seq<byte>, c: seq<byte>)
    ensures a + b + c == a + (b + c)
  {
  }

  lemma OneKid(key: Key, kids: seq<nat>)
    requires kids != []
    ensures KidsBytes([key], kids) == KidBytes(key, kids[0])
  {
    assert [key][..0] == [];
  }

  lemma InternalPadding(p: Page)
    requires p.Internal? && |p.kids| == |p.keys| + 1 && |p.keys| <= INTERNAL_NODE_MAX_KEYS
    ensures InternalBytes(p) == InternalHeader(p) + KidsBytes(p.keys, p.kids)
                                + Zeros(PAGE_SIZE - HEADER_SIZE - KID_SIZE * |p.keys|)
    ensures |InternalBytes(p)| == PAGE_SIZE
  {
  }

  /** Every header field of an internal page's bytes reads back, the right child being the last kid. */
  lemma InternalFields(p: Page)
    requires InternalFits(p)
    ensures |InternalBytes(p)| == PAGE_SIZE
    ensures Field(InternalBytes(p), NUM_CELLS_OFFSET) == |p.keys|
    ensures Field(InternalBytes(p), RIGHT_CHILD_OFFSET) == p.kids[|p.keys|]
    ensures Field(InternalBytes(p), PARENT_POINTER_OFFSET) == p.parent
    ensures InternalBytes(p)[0] == NODE_INTERNAL && InternalBytes(p)[1] == if p.isRoot then 1 else 0
  {
    InternalPadding(p);
    HeaderFirst(InternalBytes(p), InternalHeader(p), KidsBytes(p.keys, p.kids), Zeros(PAGE_SIZE - HEADER_SIZE - KID_SIZE * |p.keys|));
    assert p.kids[|p.keys|] in p.kids;
    HeaderReads(InternalBytes(p), NODE_INTERNAL, p.isRoot, p.parent, |p.keys|, p.kids[|p.keys|]);
  }

  /** `internal_node_cell`. */
  function KidOffset(i: nat): nat { HEADER_SIZE + KID_SIZE * i }

  function Patched(b: seq<byte>, at: nat, x: nat): seq<byte>
    requires at + 4 <= |b|
  {
    b[..at] + Uint32(x) + b[at + 4..]
  }

  /** A new cell in the gap; the child behind it goes to the next cell, or to the right-child slot. */
  function WithKid(b: seq<byte>, num: nat, at: nat, end: nat, kid: seq<byte>, right: nat): seq<byte>
    requires HEADER_SIZE <= at <= end <= end + |kid| <= |b| && |kid| == KID_SIZE && (at == end || at + KID_SIZE <= end)
  {
    WithCellLength(b, num, at, end, kid);
    Patched(WithCell(b, num, at, end, kid), if at == end then RIGHT_CHILD_OFFSET else at + KID_SIZE + KEY_SIZE, right)
  }

  lemma WithCellLength(b: seq<byte>, num: nat, at: nat, end: nat, cell: seq<byte>)
    requires HEADER_SIZE <= at <= end <= end + |cell| <= |b|
    ensures |WithCell(b, num, at, end, cell)| == |b|
  {
  }

  lemma HeaderWithLink(kind: byte, isRoot: bool, parent: nat, n: nat, link: nat, num: nat, right: nat)
    ensures Patched(WithNum(Header(kind, isRoot, parent, n, link), num), RIGHT_CHILD_OFFSET, right)
         == Header(kind, isRoot, parent, num, right)
    ensures WithNum(Header(kind, isRoot, parent, n, link), num) == Header(kind, isRoot, parent, num, link)
  {
    var front := [kind, if isRoot then 1 else 0] + Uint32(parent);
    var h := Header(kind, isRoot, parent, n, link);
    assert h == front + Uint32(n) + Uint32(link);
    assert h[..6] == front && h[10..] == Uint32(link);
  }

  lemma PatchFirst(h: seq<byte>, rest: seq<byte>, at: nat, x: nat)
    requires at + 4 <= |h|
    ensures Patched(h + rest, at, x) == Patched(h, at, x) + rest
  {
  }

  /** Appending: the new right child replaces the old one, which the caller passes as `left`. */
  lemma AppendKidBytes(b: seq<byte>, num: nat, h: seq<byte>, a: seq<byte>, zeros: seq<byte>, kid: seq<byte>,
                       at: nat, right: nat)
    requires |h| == HEADER_SIZE && |kid| == KID_SIZE <= |zeros| && b == h + a + zeros && at == |h + a|
    ensures HEADER_SIZE <= at && at + KID_SIZE <= |b|
    ensures WithKid(b, num, at, at, kid, right)
         == Patched(WithNum(h, num), RIGHT_CHILD_OFFSET, right) + (a + kid) + zeros[KID_SIZE..]
  {
    assert b == h + a + [] + zeros;
    WithCellParts(b, num, h, a, [], zeros, kid, |a|, |a|, KID_SIZE);
    var rest := a + kid + zeros[KID_SIZE..];
    assert WithCell(b, num, at, at, kid) == WithNum(h, num) + rest;
    PatchFirst(WithNum(h, num), rest, RIGHT_CHILD_OFFSET, right);
  }

  lemma PatchMiddle(front: seq<byte>, child: seq<byte>, rest: seq<byte>, x: nat)
    requires |child| == 4
    ensures Patched(front + child + rest, |front|, x) == front + Uint32(x) + rest
  {
  }

  /** Inserting before an entry: the entry's key moves up and its child becomes `right`. */
  lemma MiddleKidBytes(b: seq<byte>, num: nat, h: seq<byte>, a: seq<byte>, next: seq<byte>, child: seq<byte>,
                       more: seq<byte>, zeros: seq<byte>, kid: seq<byte>, at: nat, end: nat, right: nat)
    requires |h| == HEADER_SIZE && |kid| == KID_SIZE <= |zeros| && |next| == KEY_SIZE && |child| == 4
    requires b == h + a + (next + child + more) + zeros && at == HEADER_SIZE + |a| && end == at + KID_SIZE + |more|
    ensures end + KID_SIZE <= |b|
    ensures WithKid(b, num, at, end, kid, right)
         == WithNum(h, num) + a + kid + next + Uint32(right) + (more + zeros[KID_SIZE..])
  {
    var m, front := next + child + more, WithNum(h, num) + a + kid;
    assert WithCell(b, num, at, end, kid) == front + next + child + (more + zeros[KID_SIZE..]) by {
      WithCellParts(b, num, h, a, m, zeros, kid, |a|, |a + m|, KID_SIZE);
      Opened(front, next, child, more, zeros[KID_SIZE..]);
    }
    PatchMiddle(front + next, child, more + zeros[KID_SIZE..], right);
  }

  lemma Opened(front: seq<byte>, next: seq<byte>, child: seq<byte>, more: seq<byte>, zeros: seq<byte>)
    ensures front + (next + child + more + zeros) == front + next + child + (more + zeros)
  {
  }

  lemma Closed(h: seq<byte>, a: seq<byte>, kid: seq<byte>, next: seq<byte>, child: seq<byte>, more: seq<byte>, zeros: seq<byte>)
    ensures h + (a + (kid + (next + child + more))) + zeros == h + a + kid + next + child + (more + zeros)
  {
  }

  function Free(n: nat): seq<byte> {
    Zeros(if n <= INTERNAL_NODE_MAX_KEYS then PAGE_SIZE - HEADER_SIZE - KID_SIZE * n else 0)
  }

  lemma FreeAfter(n: nat)
    requires n < INTERNAL_NODE_MAX_KEYS
    ensures |Free(n)| >= KID_SIZE && Free(n)[KID_SIZE..] == Free(n + 1)
  {
  }

  lemma InternalCut(p: Page)
    requires p.Internal? && |p.kids| == |p.keys| + 1 && |p.keys| <= INTERNAL_NODE_MAX_KEYS
    ensures InternalBytes(p) == InternalHeader(p) + KidsBytes(p.keys, p.kids) + Free(|p.keys|)
    ensures |InternalBytes(p)| == PAGE_SIZE
  {
    InternalPadding(p);
  }

  lemma AppendKid(p: Page, key: Key, left: nat, right: nat)
    requires InternalFits(p) && |p.keys| < INTERNAL_NODE_MAX_KEYS
    ensures |InternalBytes(p)| == PAGE_SIZE
    ensures InternalBytes(InsertKid(p, |p.keys|, key, left, right))
         == WithKid(InternalBytes(p), |p.keys| + 1, KidOffset(|p.keys|), KidOffset(|p.keys|), KidBytes(key, left), right)
  {
    var r, n := InsertKid(p, |p.keys|, key, left, right), |p.keys|;
    InternalCut(p);
    InternalCut(r);
    FreeAfter(n);
    HeaderWithLink(NODE_INTERNAL, p.isRoot, p.parent, n, p.kids[n], n + 1, right);
    KidsAppended(p, key, left, right);
    AppendKidBytes(InternalBytes(p), n + 1, InternalHeader(p), KidsBytes(p.keys, p.kids), Free(n), KidBytes(key, left),
                   KidOffset(n), right);
  }

  lemma OpenKid(p: Page, j: nat, key: Key, left: nat, right: nat)
    requires InternalFits(p) && j < |p.keys| < INTERNAL_NODE_MAX_KEYS
    ensures |InternalBytes(p)| == PAGE_SIZE
    ensures InternalBytes(InsertKid(p, j, key, left, right))
         == WithKid(InternalBytes(p), |p.keys| + 1, KidOffset(j), KidOffset(|p.keys|), KidBytes(key, left), right)
  {
    var r, n := InsertKid(p, j, key, left, right), |p.keys|;
    var a, more := KidsBytes(p.keys[..j], p.kids[..j]), KidsBytes(p.keys[j + 1..], p.kids[j + 1..]);
    BeforeOpening(p, j);
    AfterOpening(p, j, key, left, right);
    OpenKidBytes(InternalBytes(p), n + 1, InternalHeader(p), a, KeyBytes(p.keys[j]), Uint32(p.kids[j]),
                 more, Free(n), KidBytes(key, left), KidOffset(j), KidOffset(n), right, InternalBytes(r));
  }

  lemma BeforeOpening(p: Page, j: nat)
    requires InternalFits(p) && j < |p.keys| < INTERNAL_NODE_MAX_KEYS
    ensures var a, more := KidsBytes(p.keys[..j], p.kids[..j]), KidsBytes(p.keys[j + 1..], p.kids[j + 1..]);
            && InternalBytes(p) == InternalHeader(p) + (a + (KeyBytes(p.keys[j]) + Uint32(p.kids[j]) + more)) + Free(|p.keys|)
            && KidOffset(j) == HEADER_SIZE + |a| && KidOffset(|p.keys|) == KidOffset(j) + KID_SIZE + |more|
    ensures |InternalBytes(p)| == PAGE_SIZE && |Free(|p.keys|)| >= KID_SIZE && |InternalHeader(p)| == HEADER_SIZE
  {
    InternalCut(p);
    FreeAfter(|p.keys|);
    KidsBefore(p.keys, p.kids, j);
    assert KidBytes(p.keys[j], p.kids[j]) == KeyBytes(p.keys[j]) + Uint32(p.kids[j]);
  }

  lemma AfterOpening(p: Page, j: nat, key: Key, left: nat, right: nat)
    requires InternalFits(p) && j < |p.keys| < INTERNAL_NODE_MAX_KEYS && |InternalHeader(p)| == HEADER_SIZE
    requires |Free(|p.keys|)| >= KID_SIZE
    ensures var a, more := KidsBytes(p.keys[..j], p.kids[..j]), KidsBytes(p.keys[j + 1..], p.kids[j + 1..]);
            InternalBytes(InsertKid(p, j, key, left, right)) ==
            WithNum(InternalHeader(p), |p.keys| + 1)
            + (a + (KidBytes(key, left) + (KeyBytes(p.keys[j]) + Uint32(right) + more))) + Free(|p.keys|)[KID_SIZE..]
  {
    var r, n := InsertKid(p, j, key, left, right), |p.keys|;
    InternalCut(r);
    FreeAfter(n);
    HeaderWithLink(NODE_INTERNAL, p.isRoot, p.parent, n, p.kids[n], n + 1, right);
    KidsOpened(p, j, key, left, right);
    assert InternalHeader(r) == WithNum(InternalHeader(p), n + 1);
  }

  lemma OpenKidBytes(b: seq<byte>, num: nat, h: seq<byte>, a: seq<byte>, next: seq<byte>, child: seq<byte>,
                     more: seq<byte>, zeros: seq<byte>, kid: seq<byte>, at: nat, end: nat, right: nat, out: seq<byte>)
    requires |h| == HEADER_SIZE && |kid| == KID_SIZE <= |zeros| && |next| == KEY_SIZE && |child| == 4
    requires b == h + (a + (next + child + more)) + zeros && at == HEADER_SIZE + |a| && end == at + KID_SIZE + |more|
    requires out == WithNum(h, num) + (a + (kid + (next + Uint32(right) + more))) + zeros[KID_SIZE..]
    ensures end + KID_SIZE <= |b| && out == WithKid(b, num, at, end, kid, right)
  {
    MiddleKidBytes(b, num, h, a, next, child, more, zeros, kid, at, end, right);
    Closed(WithNum(h, num), a, kid, next, Uint32(right), more, zeros[KID_SIZE..]);
  }

  /** `internal_node_insert` stores `InsertKid` of the page, in both its cases. */
  lemma InsertKidBytes(p: Page, j: nat, key: Key, left: nat, right: nat)
    requires InternalFits(p) && j <= |p.keys| < INTERNAL_NODE_MAX_KEYS
    ensures |InternalBytes(p)| == PAGE_SIZE
    ensures InternalBytes(InsertKid(p, j, key, left, right))
         == WithKid(InternalBytes(p), |p.keys| + 1, KidOffset(j), KidOffset(|p.keys|), KidBytes(key, left), right)
  {
    if j == |p.keys| {
      AppendKid(p, key, left, right);
    } else {
      OpenKid(p, j, key, left, right);
    }
  }

  lemma KidsAppended(p: Page, key: Key, left: nat, right: nat)
    requires InternalFits(p)
    ensures var r := InsertKid(p, |p.keys|, key, left, right);
            KidsBytes(r.keys, r.kids) == KidsBytes(p.keys, p.kids) + KidBytes(key, left)
  {
    var n := |p.keys|;
    KidsConcat(p.keys, p.kids[..n], [], p.kids[n..]);
    KidsConcat(p.keys, p.kids[..n], [key], [left, right]);
    OneKid(key, [left, right]);
    var r := InsertKid(p, n, key, left, right);
    assert p.keys + [] == p.keys && p.kids[..n] + p.kids[n..] == p.kids;
    assert r.keys == p.keys + [key] && r.kids == p.kids[..n] + [left, right];
  }

  lemma SplitAround<T>(s: seq<T>, j: nat)
    requires j < |s|
    ensures s == s[..j] + ([s[j]] + s[j + 1..])
  {
  }

  lemma KidsBefore(keys: seq<Key>, kids: seq<nat>, j: nat)
    requires j < |keys| <= |kids|
    ensures KidsBytes(keys, kids)
         == KidsBytes(keys[..j], kids[..j]) + (KidBytes(keys[j], kids[j]) + KidsBytes(keys[j + 1..], kids[j + 1..]))
  {
    SplitAround(keys, j);
    SplitAround(kids, j);
    KidsThrough(keys[..j], kids[..j], keys[j], kids[j], keys[j + 1..], kids[j + 1..]);
  }

  lemma KidsOpened(p: Page, j: nat, key: Key, left: nat, right: nat)
    requires InternalFits(p) && j < |p.keys|
    ensures var r := InsertKid(p, j, key, left, right);
            KidsBytes(r.keys, r.kids) == KidsBytes(p.keys[..j], p.kids[..j])
              + (KidBytes(key, left) + (KidBytes(p.keys[j], right) + KidsBytes(p.keys[j + 1..], p.kids[j + 1..])))
  {
    var k, c := p.keys[j + 1..], p.kids[j + 1..];
    KidsOpenedParts(p.keys[..j], p.kids[..j], p.keys[j], k, c, key, left, right);
    assert p.keys[j..] == [p.keys[j]] + k;
    var r := InsertKid(p, j, key, left, right);
    assert r.keys == p.keys[..j] + ([key] + ([p.keys[j]] + k));
    assert r.kids == p.kids[..j] + ([left] + ([right] + c));
  }

  lemma KidsOpenedParts(k1: seq<Key>, c1: seq<nat>, next: Key, k2: seq<Key>, c2: seq<nat>, key: Key, left: nat, right: nat)
    requires |c1| == |k1| && |k2| <= |c2|
    ensures KidsBytes(k1 + ([key] + ([next] + k2)), c1 + ([left] + ([right] + c2)))
         == KidsBytes(k1, c1) + (KidBytes(key, left) + (KidBytes(next, right) + KidsBytes(k2, c2)))
  {
    KidsFrom(next, right, k2, c2);
    KidsThrough(k1, c1, key, left, [next] + k2, [right] + c2);
  }

  lemma KidsFrom(key: Key, kid: nat, k2: seq<Key>, c2: seq<nat>)
    requires |k2| <= |c2|
    ensures KidsBytes([key] + k2, [kid] + c2) == KidBytes(key, kid) + KidsBytes(k2, c2)
  {
    OneKid(key, [kid]);
    KidsConcat([key], [kid], k2, c2);
  }

  lemma KidsThrough(k1: seq<Key>, c1: seq<nat>, key: Key, kid: nat, k2: seq<Key>, c2: seq<nat>)
    requires |c1| == |k1| && |k2| <= |c2|
    ensures KidsBytes(k1 + ([key] + k2), c1 + ([kid] + c2)) == KidsBytes(k1, c1) + (KidBytes(key, kid) + KidsBytes(k2, c2))
  {
    KidsFrom(key, kid, k2, c2);
    KidsConcat(k1, c1, [key] + k2, [kid] + c2);
  }

  method InsertKidAt(b: array<byte>, num: nat, at: nat, end: nat, kid: seq<byte>, right: nat)
    requires HEADER_SIZE <= at <= end <= end + KID_SIZE <= b.Length && |kid| == KID_SIZE
    requires at == end || at + KID_SIZE <= end
    modifies b
    ensures b[..] == WithKid(old(b[..]), num, at, end, kid, right)
  {
    InsertCellAt(b, num, at, end, kid);
    WriteField(b, if at == end then RIGHT_CHILD_OFFSET else at + KID_SIZE + KEY_SIZE, right);
  }

  /** `internal_node_insert` on the page's bytes. */
  method InternalNodeInsertBytes(b: array<byte>, ghost p: Page, j: nat, key: Key, left: nat, right: nat) returns (ok: bool)
    requires InternalFits(p) && j <= |p.keys| && b[..] == InternalBytes(p)
    modifies b
    ensures ok == (|p.keys| < INTERNAL_NODE_MAX_KEYS)
    ensures b[..] == InternalBytes(if ok then InsertKid(p, j, key, left, right) else p)
  {
    InternalFields(p);
    var num := ReadField(b, NUM_CELLS_OFFSET);
    if num >= INTERNAL_NODE_MAX_KEYS {
      return false;
    }
    InsertKidBytes(p, j, key, left, right);
    InsertKidAt(b, num + 1, KidOffset(j), KidOffset(num), KidBytes(key, left), right);
    return true;
  }

  // Reading the cells back

  lemma Within(b: seq<byte>, front: seq<byte>, x: seq<byte>, rest: seq<byte>)
    requires b == front + x + rest
    ensures |front + x| <= |b| && b[|front|..|front + x|] == x
  {
  }

  lemma LeafCellBytes(p: Page, w: nat, i: nat)
    requires LeafOfWidth(p, w) && i < |p.slots|
    ensures HEADER_SIZE <= CellOffset(w, i) && CellOffset(w, i) + w <= PAGE_SIZE == |LeafBytes(p)|
    ensures LeafBytes(p)[CellOffset(w, i)..CellOffset(w, i) + w] == CellBytes(p.slots[i])
  {
    var a, x, more := p.slots[..i], p.slots[i], p.slots[i + 1..];
    assert x in p.slots && p.slots == a + [x] + more;
    LeafCut(p, w, a, [x], more);
    OneCell(x);
    CellsFit(w, i + 1, |p.slots|);
    Within(LeafBytes(p), LeafHeader(p) + CellsBytes(a), CellBytes(x), Rest(more, |p.slots|, w));
  }

  lemma CellReads(s: Schema, c: Cell, x: seq<byte>)
    requires RowHasTypes(s.columns, c.row) && x == CellBytes(c)
    ensures |x| == CellSize(s) && KeyFrom(x[..KEY_SIZE]) == c.key && RowFromBytes(s.columns, x[KEY_SIZE..]) == c.row
  {
    RowRoundTrip(s.columns, c.row);
    KeyRoundTrip(c.key);
    assert x[..KEY_SIZE] == KeyBytes(c.key) && x[KEY_SIZE..] == RowBytes(c.row);
  }

  /** The bytes of cell i, cut into key and value, are what was stored. */
  function CellAt(b: seq<byte>, s: Schema, i: nat): (c: Cell)
    requires CellOffset(CellSize(s), i) + CellSize(s) <= |b|
  {
    var at := CellOffset(CellSize(s), i);
    var x := b[at..at + CellSize(s)];
    Cell(KeyFrom(x[..KEY_SIZE]), RowFromBytes(s.columns, x[KEY_SIZE..]))
  }

  /** `leaf_node_key`, and `deserialize_row` of `leaf_node_value`, give back the cell. */
  lemma LeafCellReads(p: Page, s: Schema, i: nat)
    requires LeafFits(p, s) && i < |p.slots|
    ensures CellOffset(CellSize(s), i) + CellSize(s) <= |LeafBytes(p)|
    ensures CellAt(LeafBytes(p), s, i) == p.slots[i]
  {
    LeafWidth(p, s);
    LeafCellBytes(p, CellSize(s), i);
    assert p.slots[i] in p.slots;
    CellReads(s, p.slots[i], CellBytes(p.slots[i]));
  }

  /** `internal_node_key` and `internal_node_value` give back the separator and the child. */
  lemma InternalCellReads(p: Page, i: nat)
    requires InternalFits(p) && i < |p.keys|
    ensures var at, b := KidOffset(i), InternalBytes(p);
            && at + KID_SIZE <= |b|
            && KeyFrom(b[at..at + KEY_SIZE]) == p.keys[i]
            && Field(b, at + KEY_SIZE) == p.kids[i]
  {
    var at, b, n := KidOffset(i), InternalBytes(p), |p.keys|;
    var a, x, more := KidsBytes(p.keys[..i], p.kids[..i]), KidBytes(p.keys[i], p.kids[i]), KidsBytes(p.keys[i + 1..], p.kids[i + 1..]);
    InternalCut(p);
    KidsBefore(p.keys, p.kids, i);
    assert b == InternalHeader(p) + a + x + (more + Free(n));
    Within(b, InternalHeader(p) + a, x, more + Free(n));
    assert x[..KEY_SIZE] == KeyBytes(p.keys[i]) && x[KEY_SIZE..] == Uint32(p.kids[i]);
    assert b[at..at + KID_SIZE][..KEY_SIZE] == b[at..at + KEY_SIZE];
    assert b[at..at + KID_SIZE][KEY_SIZE..] == b[at + KEY_SIZE..at + KEY_SIZE + 4];
    KeyRoundTrip(p.keys[i]);
    assert p.kids[i] in p.kids;
    FieldRoundTrip(b, at + KEY_SIZE, p.kids[i]);
  }

  /** Every page of a tree fits the layout. */
  lemma TreePageFits(t: Tree, s: Schema, p: nat)
    requires WellFormed(t) && Typed(t, s) && t.cap == LeafMaxCells(s) && p in t.shape && p in t.pages
    requires !t.pages[p].Catalog? ==> t.pages[p].parent < UINT32_END
    ensures t.pages[p].Internal? ==> InternalFits(t.pages[p])
    ensures t.pages[p].Leaf? ==> LeafFits(t.pages[p], s)
    ensures t.pages[p].Internal? || t.pages[p].Leaf?
  {
    PageFacts(t, 0, p);
    var n := t.pages[p];
    if n.Internal? {
      forall kid | kid in n.kids ensures kid < UINT32_END {
        var i :| 0 <= i < |n.kids| && n.kids[i] == kid;
        KidFacts(t, 0, p, i);
      }
    } else {
      if n.next != 0 {
        PageFacts(t, 0, n.next);
      }
      forall c | c in n.slots ensures RowHasTypes(s.columns, c.row) {
        assert c in AllSlots(t);
      }
    }
  }
}
