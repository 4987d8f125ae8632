/** What a restart preserves. */
module Persistence {
  import opened Pages
  import opened Trees
  import opened Splits
  import opened Chains
  import opened Pagers
  import opened LeafInserts
  import opened Databases
  import opened Statements
  import opened Sessions

  /** t' is t read back from the file: pages may have lost their parent fields. */
  ghost predicate ReadBack(t: Tree, t': Tree) {
    && t'.shape == t.shape && t'.root == t.root && t'.cap == t.cap
    && forall p :: p in t.shape && p in t.pages ==> p in t'.pages && SameButParent(t'.pages[p], t.pages[p])
  }

  /** Everything but the parent fields of a tree survives: its shape, its cells, its chain. */
  lemma ReadBackKeepsTree(t: Tree, t': Tree)
    requires WellFormed(t) && ReadBack(t, t')
    ensures WellFormed(t') && CellSet(t') == CellSet(t) && Contents(t') == Contents(t) && InOrder(t') == InOrder(t)
    ensures AllSlots(t') == AllSlots(t)
    ensures LaterLeavesNonEmpty(t) ==> LaterLeavesNonEmpty(t')
  {
    forall p | p in t'.shape
      ensures PageOK(t', 0, p)
    {
      ReadBackPage(t, t', p);
    }
    forall p | p in t.shape
      ensures p in t.pages && p in t'.pages && SameButParent(t'.pages[p], t.pages[p]) && Cells(t'.pages[p]) == Cells(t.pages[p])
    {
      PageFacts(t, 0, p);
    }
    SameCellsSameContents(t, t');
    InOrderEnumerates(t);
    InOrderEnumerates(t');
    SortedEnumerationUnique(InOrder(t), InOrder(t'));
  }

  lemma ReadBackPage(t: Tree, t': Tree, p: nat)
    requires WellFormed(t) && ReadBack(t, t') && p in t.shape
    ensures PageOK(t', 0, p)
  {
    PageFacts(t, 0, p);
    if p != t.root {
      PageFacts(t, 0, t.shape[p].up);
    }
    if t.pages[p].Internal? {
      SameKids(t.pages[p], t'.pages[p], t.shape, t.root, p, INTERNAL_NODE_MAX_KEYS);
    }
  }

  /** Closing a database and opening its file again brings back every table with every row. The pages
      form a database again exactly if the file had the parent field of every clean page right: the
      children an internal split moves are not marked dirty. */
  method Reopen(db: Database) returns (again: Pager)
    requires db.Valid() && db.shapes != []
    modifies db.pager`file
    ensures again.Valid() && again.Recoverable() && fresh(again) && again.numPages == db.pager.numPages && again.dirty == {}
    ensures HasCatalog(again.Heap(), db.shapes) && again.Heap()[0] == old(db.pager.Heap())[0]
    ensures forall i :: 0 <= i < |db.shapes| ==>
              && WellFormed(TreeAt(again.Heap(), db.shapes, i))
              && Contents(TreeAt(again.Heap(), db.shapes, i)) == old(db.State())[i].rows
    ensures DatabaseOK(again.Heap(), db.shapes) <==> old(db.ParentsInFile())
    ensures old(db.ParentsInFile()) ==> BroughtBack(old(db.pager.Heap()), again.Heap(), db.shapes, again.file)
  {
    ghost var h: Heap := db.pager.Heap();
    ghost var file, dirty, state := db.pager.file, db.pager.dirty, db.State();
    again := CloseAndReopen(db.pager);
    ghost var h': Heap := again.Heap();
    assert h'[0] == h[0];
    forall i | 0 <= i < |db.shapes|
      ensures WellFormed(TreeAt(h', db.shapes, i)) && Contents(TreeAt(h', db.shapes, i)) == state[i].rows
    {
      assert state[i] == StateAt(h, db.shapes, i);
      TableReadBack(h, db.shapes, h', file, dirty, i);
    }
    DatabaseReadBack(h, db.shapes, h', file, dirty, again.file);
  }

  /** A restart that has lost nothing: same tables, same rows, no new holes, and parent fields that will
      survive the next restart too. */
  ghost predicate BroughtBack(h: Heap, h': Heap, shapes: seq<Shape>, file: seq<Page>)
    requires DatabaseOK(h, shapes)
  {
    && DatabaseOK(h', shapes) && StateOf(h', shapes) == StateOf(h, shapes)
    && (NoHoles(h, shapes) ==> NoHoles(h', shapes))
    && (TextsEnded(h, shapes) ==> TextsEnded(h', shapes))
    && ParentsCurrent(file, {}, h', shapes)
  }

  /** A restart after which the session goes on. */
  method Restart(db: Database) returns (again: Database)
    requires db.Valid() && db.shapes != [] && db.ParentsInFile()
    modifies db.pager`file
    ensures fresh(again) && fresh(again.pager) && again.Valid() && again.State() == old(db.State())
    ensures again.ParentsInFile()
    ensures old(db.Gapless()) ==> again.Gapless()
    ensures old(db.Ended()) ==> again.Ended()
  {
    var pager := Reopen(db);
    again := new Database.Resume(pager, db.shapes);
  }

  ghost predicate Came(h: Heap, h': Heap, file: seq<Page>, dirty: set<nat>) {
    && h'.Keys == h.Keys
    && (forall p :: p in h ==> SameButParent(h'[p], h[p]))
    && (forall p :: p in dirty ==> p in h && h'[p] == h[p])
    && forall p :: p in h && p !in dirty ==> p < |file| && h'[p] == file[p]
  }

  lemma DatabaseReadBack(h: Heap, shapes: seq<Shape>, h': Heap, file: seq<Page>, dirty: set<nat>, file': seq<Page>)
    requires DatabaseOK(h, shapes) && HasCatalog(h', shapes) && h'[0] == h[0] && Came(h, h', file, dirty)
    requires forall p: nat :: p < |file'| ==> p in h' && h'[p] == file'[p]
    ensures DatabaseOK(h', shapes) <==> ParentsCurrent(file, dirty, h, shapes)
    ensures DatabaseOK(h', shapes) ==> BroughtBack(h, h', shapes, file')
  {
    if ParentsCurrent(file, dirty, h, shapes) {
      forall i | 0 <= i < |shapes|
        ensures TableOK(TreeAt(h', shapes, i), h'[0].tables[i].schema)
      {
        assert ParentsCurrentIn(file, dirty, h, shapes, i);
        TableReadBack(h, shapes, h', file, dirty, i);
        TableFacts(h, shapes, i);
      }
    }
    if DatabaseOK(h', shapes) {
      forall i | 0 <= i < |shapes|
        ensures ParentsCurrentIn(file, dirty, h, shapes, i)
      {
        TableFacts(h', shapes, i);
        TableReadBack(h, shapes, h', file, dirty, i);
      }
      RestBroughtBack(h, shapes, h', file, dirty, file');
    }
  }

  lemma RestBroughtBack(h: Heap, shapes: seq<Shape>, h': Heap, file: seq<Page>, dirty: set<nat>, file': seq<Page>)
    requires DatabaseOK(h, shapes) && DatabaseOK(h', shapes) && h'[0] == h[0] && Came(h, h', file, dirty)
    requires forall p: nat :: p < |file'| ==> p in h' && h'[p] == file'[p]
    ensures BroughtBack(h, h', shapes, file')
  {
    forall i | 0 <= i < |shapes|
      ensures StateAt(h', shapes, i) == StateAt(h, shapes, i)
      ensures NoHoles(h, shapes) ==> NoHolesIn(h', shapes, i)
      ensures TextsEnded(h, shapes) ==> SlotsEndedIn(h', shapes, i)
      ensures ParentsCurrentIn(file', {}, h', shapes, i)
    {
      assert NoHoles(h, shapes) ==> NoHolesIn(h, shapes, i);
      assert TextsEnded(h, shapes) ==> SlotsEndedIn(h, shapes, i);
      TableFacts(h, shapes, i);
      TableFacts(h', shapes, i);
      TableReadBack(h, shapes, h', file, dirty, i);
      FieldsOfParented(TreeAt(h', shapes, i), file');
    }
    assert StateOf(h', shapes) == StateOf(h, shapes);
  }

  lemma FieldsOfParented(t: Tree, file: seq<Page>)
    requires WellFormed(t) && Parented(t) && forall p: nat :: p < |file| ==> p in t.pages && t.pages[p] == file[p]
    ensures FileParentsCurrent(file, {}, t.shape, t.root)
  {
    forall p | p in t.shape && p != t.root && p < |file|
      ensures ParentField(file[p]) == t.shape[p].up
    {
      PageFacts(t, 0, p);
      assert ParentOK(t, p);
    }
  }

  /** Where the file falls behind: a child of the right half of an internal split, unless something
      else makes it dirty, still names in the file the page that held it before the split. */
  lemma SplitLeavesParentsBehind(t: Tree, q: nat, r: nat, j: nat, i: nat, file: seq<Page>, dirty: set<nat>)
    requires InternalSplitReady(t, q, r, j) && INTERNAL_MID < i < |t.pages[q].kids|
    requires var c := t.pages[q].kids[i]; c !in dirty && c < |file| && ParentField(file[c]) == q
    ensures var c := t.pages[q].kids[i]; c in t.shape && t.shape[c].up == q
    ensures !FileParentsCurrent(file, dirty, InternalSplit(t, q, r, j).shape, t.root)
  {
    KidFacts(t, q, q, i);
    SplitKidsFollow(t, InternalSplit(t, q, r, j), q, r, j);
  }

  /** The first case a growing table meets: when the root splits, every child moves to a new page, so each one
      that stays clean is left behind. */
  lemma RootSplitLeavesParentsBehind(t: Tree, a: nat, b: nat, i: nat, file: seq<Page>, dirty: set<nat>)
    requires RootSplitReady(t, a, b) && i < |t.pages[t.root].kids|
    requires var c := t.pages[t.root].kids[i]; c !in dirty && c < |file| && ParentField(file[c]) == t.root
    ensures var c := t.pages[t.root].kids[i]; c in t.shape && t.shape[c].up == t.root
    ensures !FileParentsCurrent(file, dirty, RootSplit(t, a, b).shape, t.root)
  {
    var t' := RootSplit(t, a, b);
    KidFacts(t, t.root, t.root, i);
    RootKids(t, t', a, b);
    assert t.pages[t.root].kids[i] in t'.shape;
  }

  /** One table read back: the tree and all it holds, and its parent fields as far as the file had them. */
  lemma TableReadBack(h: Heap, shapes: seq<Shape>, h': Heap, file: seq<Page>, dirty: set<nat>, i: nat)
    requires DatabaseOK(h, shapes) && HasCatalog(h', shapes) && h'[0] == h[0] && i < |shapes| && Came(h, h', file, dirty)
    ensures WellFormed(TreeAt(h', shapes, i)) && WellFormed(TreeAt(h, shapes, i))
    ensures Contents(TreeAt(h', shapes, i)) == Contents(TreeAt(h, shapes, i))
    ensures AllSlots(TreeAt(h', shapes, i)) == AllSlots(TreeAt(h, shapes, i))
    ensures LaterLeavesNonEmpty(TreeAt(h, shapes, i)) ==> LaterLeavesNonEmpty(TreeAt(h', shapes, i))
    ensures Parented(TreeAt(h', shapes, i)) <==> FileParentsCurrent(file, dirty, shapes[i], h[0].tables[i].root)
  {
    var t, t' := TreeAt(h, shapes, i), TreeAt(h', shapes, i);
    TableFacts(h, shapes, i);
    ReadBackKeepsTree(t, t');
    if Parented(t') {
      forall p | p in shapes[i] && p != t.root && p !in dirty && p < |file|
        ensures ParentField(file[p]) == shapes[i][p].up
      {
        PageFacts(t', 0, p);
        assert ParentOK(t', p);
      }
    }
    if FileParentsCurrent(file, dirty, shapes[i], t.root) {
      forall p | p in t'.shape && p in t'.pages
        ensures ParentOK(t', p)
      {
        PageFacts(t, 0, p);
        assert ParentOK(t, p);
      }
    }
  }
}
