/** UPDATE: `update_command` of `src/table.c`. */
module Updates {
  import opened Rows
  import opened Meanings
  import opened Pages
  import opened Trees
  import opened Chains
  import opened Pagers
  import opened Bulk

  /** The row an UPDATE leaves in place of a stored one. */
  function UpdatedRow(s: Schema, where: Option<Equals>, sets: seq<Assign>, row: Row): Row {
    if RowOK(s, row) && AssignsOK(s, sets) && AllTextFits(sets) && Matches(s, where, row)
    then ApplySets(s, row, sets) else row
  }

  /** The rows of a table after an UPDATE. */
  function UpdatedRows(s: Schema, rows: map<Key, Row>, where: Option<Equals>, sets: seq<Assign>): map<Key, Row> {
    map k | k in rows :: UpdatedRow(s, where, sets, rows[k])
  }

  function UpdatedCell(s: Schema, where: Option<Equals>, sets: seq<Assign>, c: Cell): Cell {
    Cell(c.key, UpdatedRow(s, where, sets, c.row))
  }

  /** The live cells below index k have been updated. */
  ghost predicate UpdatedTo(n: Page, r: Page, k: nat, s: Schema, where: Option<Equals>, sets: seq<Assign>) {
    && n.Leaf? && r.Leaf? && r == n.(slots := r.slots) && |r.slots| == |n.slots| && k <= |n.slots|
    && (forall i :: 0 <= i < k ==> r.slots[i] == UpdatedCell(s, where, sets, n.slots[i]))
    && (forall i :: k <= i < |n.slots| ==> r.slots[i] == n.slots[i])
  }

  function UpdateLeaf(n: Page, k: nat, s: Schema, where: Option<Equals>, sets: seq<Assign>): (r: Page)
    requires n.Leaf? && k <= |n.slots|
    ensures UpdatedTo(n, r, k, s, where, sets)
  {
    n.(slots := seq(|n.slots|, i requires 0 <= i < |n.slots| =>
                      if i < k then UpdatedCell(s, where, sets, n.slots[i]) else n.slots[i]))
  }

  ghost function UpdateEdit(s: Schema, where: Option<Equals>, sets: seq<Assign>): Page -> Page {
    (n: Page) => if n.Leaf? && n.num <= |n.slots| then UpdateLeaf(n, n.num, s, where, sets) else n
  }

  lemma UpdatedToUnique(n: Page, a: Page, b: Page, k: nat, s: Schema, where: Option<Equals>, sets: seq<Assign>)
    requires UpdatedTo(n, a, k, s, where, sets) && UpdatedTo(n, b, k, s, where, sets)
    ensures a == b
  {
    assert a.slots == b.slots;
  }

  // What the SET list does to a row

  ghost predicate Assigned(sets: seq<Assign>, column: nat) {
    exists j :: 0 <= j < |sets| && sets[j].column == column
  }

  /** Columns the SET list does not name keep their value. */
  lemma {:induction false} UnassignedStays(s: Schema, row: Row, sets: seq<Assign>, column: nat)
    requires RowOK(s, row) && AssignsOK(s, sets) && AllTextFits(sets) && column < |row|
    requires !Assigned(sets, column)
    ensures ApplySets(s, row, sets)[column] == row[column]
    decreases |sets|
  {
    if sets != [] {
      var front := sets[..|sets| - 1];
      assert AssignsOK(s, front) && AllTextFits(front);
      assert sets[|sets| - 1].column != column;
      UnassignedStays(s, row, front, column);
    }
  }

  /** Overwriting a text buffer stores the new text exactly when the new text is not shorter than
      the old one; otherwise the tail of the old text survives behind it. */
  lemma TextOverwriteExact(old_text: seq<byte>, text: seq<byte>)
    requires |text| <= |old_text| && NulFree(text) && ZeroPadded(old_text)
    ensures var v := text + old_text[|text|..];
            && Overwrite(TextVal(old_text), StrLit(text)) == TextVal(v)
            && Visible(v) == (if StrLen(old_text) <= |text| then text else text + Visible(old_text)[|text|..])
            && (Visible(v) == text <==> StrLen(old_text) <= |text|)
            && ZeroPadded(v)
  {
    OverlayLength(old_text, text);
    OverlayVisible(old_text, text);
  }

  lemma OverlayVisible(old_text: seq<byte>, text: seq<byte>)
    requires |text| <= |old_text| && NulFree(text) && ZeroPadded(old_text)
    ensures Visible(text + old_text[|text|..])
         == if StrLen(old_text) <= |text| then text else text + Visible(old_text)[|text|..]
  {
    OverlayLength(old_text, text);
    var n := StrLen(old_text);
    OverlayPrefix(old_text, text, if n <= |text| then |text| else n);
  }

  lemma OverlayPrefix(old_text: seq<byte>, text: seq<byte>, n: nat)
    requires |text| <= n <= |old_text|
    ensures (text + old_text[|text|..])[..n] == text + old_text[..n][|text|..]
    ensures n == |text| ==> (text + old_text[|text|..])[..n] == text
  {
  }

  lemma OverlayLength(old_text: seq<byte>, text: seq<byte>)
    requires |text| <= |old_text| && NulFree(text) && ZeroPadded(old_text)
    ensures StrLen(text + old_text[|text|..]) == if StrLen(old_text) <= |text| then |text| else StrLen(old_text)
  {
    StrLenIs(text + old_text[|text|..], if StrLen(old_text) <= |text| then |text| else StrLen(old_text));
  }

  ghost predicate RowPadded(row: Row) {
    forall i :: 0 <= i < |row| && row[i].TextVal? ==> ZeroPadded(row[i].text)
  }

  /** The text literals of a SET list come from NUL-terminated SQL text. */
  ghost predicate SetsNulFree(sets: seq<Assign>) {
    forall j :: 0 <= j < |sets| && sets[j].value.StrLit? ==> NulFree(sets[j].value.text)
  }

  /** What a text column shows after `text` has been copied over what it showed. */
  function Overlay(shown: seq<byte>, text: seq<byte>): seq<byte> {
    if |shown| <= |text| then text else text + shown[|text|..]
  }

  /** What a text column shows after a whole SET list. */
  function TextAfter(shown: seq<byte>, sets: seq<Assign>, column: nat): seq<byte> {
    if sets == [] then shown
    else
      var front, last := TextAfter(shown, sets[..|sets| - 1], column), sets[|sets| - 1];
      if last.column == column && last.value.StrLit? then Overlay(front, last.value.text) else front
  }

  /** A SET list leaves a padded text column padded, showing the overlay of its texts. */
  lemma {:induction false} TextColumnAfter(s: Schema, row: Row, sets: seq<Assign>, column: nat)
    requires RowOK(s, row) && AssignsOK(s, sets) && AllTextFits(sets) && SetsNulFree(sets)
    requires column < |row| && row[column].TextVal? && ZeroPadded(row[column].text)
    ensures ApplySets(s, row, sets)[column].TextVal? && ZeroPadded(ApplySets(s, row, sets)[column].text)
    ensures Visible(ApplySets(s, row, sets)[column].text) == TextAfter(Visible(row[column].text), sets, column)
    decreases |sets|
  {
    if sets != [] {
      var last := |sets| - 1;
      var front, a := sets[..last], sets[last];
      assert AssignsOK(s, front) && AllTextFits(front) && SetsNulFree(front);
      TextColumnAfter(s, row, front, column);
      var before := ApplySets(s, row, front);
      assert AssignOK(s, a) && ValueHasType(before[column], s.columns[column].kind);
      if a.column == column {
        TextOverwriteExact(before[column].text, a.value.text);
      }
    }
  }

  /** A SET list keeps every row padded. */
  lemma ApplySetsPadded(s: Schema, row: Row, sets: seq<Assign>)
    requires RowOK(s, row) && AssignsOK(s, sets) && AllTextFits(sets) && SetsNulFree(sets) && RowPadded(row)
    ensures RowPadded(ApplySets(s, row, sets))
  {
    var r := ApplySets(s, row, sets);
    forall i | 0 <= i < |r| && r[i].TextVal?
      ensures ZeroPadded(r[i].text)
    {
      assert ValueHasType(r[i], s.columns[i].kind) && ValueHasType(row[i], s.columns[i].kind);
      TextColumnAfter(s, row, sets, i);
    }
  }

  /** The text of the j-th assignment is at least as long as what the column showed and as every
      text assigned to the column before. */
  ghost predicate CoversOthers(shown: seq<byte>, sets: seq<Assign>, j: nat)
    requires j < |sets| && sets[j].value.StrLit?
  {
    && |shown| <= |sets[j].value.text|
    && forall i :: 0 <= i < j && sets[i].column == sets[j].column && sets[i].value.StrLit? ==>
         |sets[i].value.text| <= |sets[j].value.text|
  }

  lemma {:induction false} TextAfterLength(shown: seq<byte>, sets: seq<Assign>, column: nat, n: nat)
    ensures |TextAfter(shown, sets, column)| <= n <==>
            |shown| <= n && forall i :: 0 <= i < |sets| && sets[i].column == column && sets[i].value.StrLit? ==> |sets[i].value.text| <= n
    decreases |sets|
  {
    if sets != [] {
      var last := |sets| - 1;
      TextAfterLength(shown, sets[..last], column, n);
      assert forall i :: 0 <= i < last ==> sets[..last][i] == sets[i];
    }
  }

  /** The last text assigned to a column is what the column shows if and only if it is no shorter
      than what the column showed and than every text the same SET list assigned to it before. */
  lemma {:induction false} LastTextShown(shown: seq<byte>, sets: seq<Assign>, j: nat)
    requires j < |sets| && sets[j].value.StrLit?
    requires forall i :: j < i < |sets| ==> sets[i].column != sets[j].column
    ensures TextAfter(shown, sets, sets[j].column) == sets[j].value.text <==> CoversOthers(shown, sets, j)
    decreases |sets|
  {
    var last := |sets| - 1;
    var front, text := TextAfter(shown, sets[..last], sets[j].column), sets[j].value.text;
    if j < last {
      LastTextShown(shown, sets[..last], j);
      assert CoversOthers(shown, sets, j) <==> CoversOthers(shown, sets[..last], j);
    } else {
      TextAfterLength(shown, sets[..last], sets[j].column, |text|);
      assert CoversOthers(shown, sets, j) <==> |front| <= |text|;
      assert |front| > |text| ==> |Overlay(front, text)| == |front|;
    }
  }

  /** The last assignment to a column decides: an INTEGER or BOOLEAN takes its value, and a text reads
      back as assigned if and only if no longer text lies under it. */
  lemma {:induction false} LastAssignmentWins(s: Schema, row: Row, sets: seq<Assign>, j: nat)
    requires RowOK(s, row) && AssignsOK(s, sets) && AllTextFits(sets) && j < |sets|
    requires forall i :: j < i < |sets| ==> sets[i].column != sets[j].column
    ensures sets[j].column < |row|
    ensures !sets[j].value.StrLit? ==> ApplySets(s, row, sets)[sets[j].column] == FreshValue(sets[j].value)
    ensures sets[j].value.StrLit? && SetsNulFree(sets) && RowPadded(row) ==>
              var old_value, v := row[sets[j].column], ApplySets(s, row, sets)[sets[j].column];
              && old_value.TextVal? && v.TextVal?
              && (Visible(v.text) == sets[j].value.text <==> CoversOthers(Visible(old_value.text), sets, j))
  {
    assert AssignOK(s, sets[j]);
    assert ValueHasType(row[sets[j].column], s.columns[sets[j].column].kind);
    if !sets[j].value.StrLit? {
      LastNumberWins(s, row, sets, j);
    } else if SetsNulFree(sets) && RowPadded(row) {
      TextColumnAfter(s, row, sets, sets[j].column);
      LastTextShown(Visible(row[sets[j].column].text), sets, j);
    }
  }

  lemma {:induction false} LastNumberWins(s: Schema, row: Row, sets: seq<Assign>, j: nat)
    requires RowOK(s, row) && AssignsOK(s, sets) && AllTextFits(sets) && j < |sets|
    requires forall i :: j < i < |sets| ==> sets[i].column != sets[j].column
    ensures sets[j].column < |row|
    ensures !sets[j].value.StrLit? ==> ApplySets(s, row, sets)[sets[j].column] == FreshValue(sets[j].value)
    decreases |sets|
  {
    var last := |sets| - 1;
    var front := sets[..last];
    assert AssignsOK(s, front) && AllTextFits(front);
    assert AssignOK(s, sets[j]) && AssignOK(s, sets[last]);
    var before := ApplySets(s, row, front);
    assert ValueHasType(before[sets[last].column], s.columns[sets[last].column].kind);
    if j < last {
      LastNumberWins(s, row, front, j);
    }
  }

  // The methods

  /** The inner switch over the SET list, on a row already copied out of its cell. */
  method UpdateRow(s: Schema, row: Row, sets: seq<Assign>) returns (ok: bool, r: Row)
    requires RowOK(s, row) && AssignsOK(s, sets)
    ensures ok <==> AllTextFits(sets)
    ensures ok ==> r == ApplySets(s, row, sets)
  {
    r := row;
    ok := true;
    var j := 0;
    while j < |sets|
      invariant j <= |sets| && AllTextFits(sets[..j]) && AssignsOK(s, sets[..j])
      invariant r == ApplySets(s, row, sets[..j])
    {
      var a := sets[j];
      assert AssignOK(s, a);
      assert ValueHasType(r[a.column], s.columns[a.column].kind);
      if !TextFits(a.value) {
        return false, row;
      }
      assert sets[..j + 1][..j] == sets[..j];
      r := r[a.column := Overwrite(r[a.column], a.value)];
      j := j + 1;
    }
    assert sets[..j] == sets;
  }

  ghost predicate AnyMatch(cells: seq<Cell>, s: Schema, where: Option<Equals>) {
    exists c :: c in cells && Matches(s, where, c.row)
  }

  /** The row loop over one page buffer. A text that is too long is found at the first matching
      row, before anything has been written. */
  method UpdateCells(page: Page, s: Schema, where: Option<Equals>, sets: seq<Assign>) returns (ok: bool, n: Page, dirty: bool)
    requires page.Leaf? && page.num <= |page.slots| && AssignsOK(s, sets)
    requires forall i :: 0 <= i < page.num ==> RowOK(s, page.slots[i].row)
    ensures ok ==> n == UpdateLeaf(page, page.num, s, where, sets) && (dirty || n == page)
    ensures ok <==> AllTextFits(sets) || !AnyMatch(Cells(page), s, where)
  {
    n := page;
    dirty := false;
    var i := 0;
    while i < page.num
      invariant i <= page.num && UpdatedTo(page, n, i, s, where, sets) && (dirty || n == page)
      invariant AllTextFits(sets) || !AnyMatch(Cells(page)[..i], s, where)
    {
      var row := n.slots[i].row;
      assert Cells(page)[..i + 1] == Cells(page)[..i] + [page.slots[i]];
      if Matches(s, where, row) {
        var r;
        ok, r := UpdateRow(s, row, sets);
        if !ok {
          assert page.slots[i] == Cells(page)[i];
          return;
        }
        dirty := true;
        n := n.(slots := n.slots[i := Cell(n.slots[i].key, r)]);
      }
      i := i + 1;
    }
    ok := true;
    assert Cells(page)[..i] == Cells(page);
    UpdatedToUnique(page, n, UpdateLeaf(page, page.num, s, where, sets), page.num, s, where, sets);
  }

  method UpdateInLeaf(pager: Pager, p: nat, s: Schema, where: Option<Equals>, sets: seq<Assign>) returns (ok: bool, next: nat)
    requires pager.Valid() && p in pager.cache && pager.cache[p].Leaf? && pager.cache[p].num <= |pager.cache[p].slots|
    requires AssignsOK(s, sets)
    requires forall i :: 0 <= i < pager.cache[p].num ==> RowOK(s, pager.cache[p].slots[i].row)
    modifies pager`cache, pager`dirty
    ensures old(pager.dirty) <= pager.dirty
    ensures pager.Valid() && next == old(pager.cache[p]).next
    ensures ok <==> AllTextFits(sets) || !AnyMatch(Cells(old(pager.cache[p])), s, where)
    ensures ok ==> pager.Heap() == old(pager.Heap())[p := UpdateEdit(s, where, sets)(old(pager.cache[p]))]
    ensures !ok ==> pager.Heap() == old(pager.Heap())
    ensures old(pager.Recoverable()) ==> pager.Recoverable()
  {
    next := pager.cache[p].next;
    var n, dirty;
    ok, n, dirty := UpdateCells(pager.cache[p], s, where, sets);
    if ok {
      pager.Write(p, n);
      if dirty {
        pager.MarkDirty(p);
      }
    }
  }

  ghost predicate WalkTyped(h: Heap, walk: seq<nat>, s: Schema)
    requires IsWalk(h, walk)
  {
    forall x {:trigger IsStop(h, walk, x)} :: 0 <= x < |walk| ==> IsStop(h, walk, x) && RowsOK(h[walk[x]], s)
  }

  ghost predicate RowsOK(n: Page, s: Schema) {
    n.Leaf? && n.num <= |n.slots| && forall i :: 0 <= i < n.num ==> RowOK(s, n.slots[i].row)
  }

  /** No leaf among the first k has a matching row. */
  ghost predicate NoMatchBefore(h: Heap, walk: seq<nat>, k: nat, s: Schema, where: Option<Equals>)
    requires IsWalk(h, walk) && k <= |walk|
  {
    forall x {:trigger IsStop(h, walk, x)} :: 0 <= x < k ==> IsStop(h, walk, x) && !AnyMatch(Cells(h[walk[x]]), s, where)
  }

  lemma NoMatchStep(h: Heap, walk: seq<nat>, k: nat, s: Schema, where: Option<Equals>, fits: bool, ok: bool)
    requires IsWalk(h, walk) && k < |walk| && (fits || NoMatchBefore(h, walk, k, s, where))
    requires IsStop(h, walk, k) && (ok <==> fits || !AnyMatch(Cells(h[walk[k]]), s, where))
    ensures ok ==> fits || NoMatchBefore(h, walk, k + 1, s, where)
    ensures !ok ==> !fits && !NoMatchBefore(h, walk, |walk|, s, where)
  {
    if ok && !fits {
      forall x | 0 <= x < k + 1
        ensures IsStop(h, walk, x) && !AnyMatch(Cells(h[walk[x]]), s, where)
      {
        assert IsStop(h, walk, x);
      }
    }
  }

  /** The walk has updated the first i leaves, and has met no match if some text is too long. */
  ghost predicate UpdatedSoFar(h: Heap, h': Heap, walk: seq<nat>, i: nat, s: Schema, where: Option<Equals>, sets: seq<Assign>)
    requires IsWalk(h, walk)
  {
    && i <= |walk| && h' == MapPages(h, walk[..i], UpdateEdit(s, where, sets))
    && (AllTextFits(sets) || NoMatchBefore(h, walk, i, s, where))
  }

  lemma NothingUpdated(h: Heap, walk: seq<nat>, s: Schema, where: Option<Equals>, sets: seq<Assign>)
    requires IsWalk(h, walk)
    ensures UpdatedSoFar(h, h, walk, 0, s, where, sets)
  {
  }

  /** Some text is too long and some row matches. */
  ghost predicate UpdateFails(h: Heap, walk: seq<nat>, s: Schema, where: Option<Equals>, sets: seq<Assign>)
    requires IsWalk(h, walk)
  {
    !AllTextFits(sets) && !NoMatchBefore(h, walk, |walk|, s, where)
  }

  lemma AllUpdated(h: Heap, h': Heap, walk: seq<nat>, s: Schema, where: Option<Equals>, sets: seq<Assign>)
    requires IsWalk(h, walk) && UpdatedSoFar(h, h', walk, |walk|, s, where, sets)
    ensures h' == MapPages(h, walk, UpdateEdit(s, where, sets)) && !UpdateFails(h, walk, s, where, sets)
  {
    assert walk[..|walk|] == walk;
  }

  method UpdateStep(pager: Pager, leaf: nat, s: Schema, where: Option<Equals>, sets: seq<Assign>,
                    ghost h: Heap, ghost walk: seq<nat>, ghost i: nat)
    returns (ok: bool, next: nat)
    requires pager.Valid() && IsWalk(h, walk) && i < |walk| && leaf == walk[i] && leaf in pager.cache
    requires AssignsOK(s, sets) && WalkTyped(h, walk, s)
    requires UpdatedSoFar(h, pager.Heap(), walk, i, s, where, sets)
    modifies pager`cache, pager`dirty
    ensures old(pager.dirty) <= pager.dirty
    ensures pager.Valid()
    ensures ok ==> UpdatedSoFar(h, pager.Heap(), walk, i + 1, s, where, sets)
    ensures !ok ==> UpdateFails(h, walk, s, where, sets) && pager.Heap() == h
    ensures ok ==> next == if i + 1 < |walk| then walk[i + 1] else 0
    ensures ok && i + 1 < |walk| ==> next != 0 && next in pager.cache
    ensures old(pager.Recoverable()) ==> pager.Recoverable()
  {
    MapPagesStep(h, walk, i, UpdateEdit(s, where, sets));
    assert IsStop(h, walk, i) && (i + 1 < |walk| ==> IsStop(h, walk, i + 1));
    ok, next := UpdateInLeaf(pager, leaf, s, where, sets);
    NoMatchStep(h, walk, i, s, where, AllTextFits(sets), ok);
    if !ok {
      NothingToUndo(h, walk[..i], s, where, sets);
    } else if next != 0 {
      var page := pager.Fetch(next);
    }
  }

  method UpdateWalk(pager: Pager, first: nat, s: Schema, where: Option<Equals>, sets: seq<Assign>, ghost walk: seq<nat>)
    returns (ok: bool)
    requires pager.Valid() && IsWalk(pager.Heap(), walk) && first == walk[0] && first in pager.cache
    requires AssignsOK(s, sets) && WalkTyped(pager.Heap(), walk, s)
    modifies pager`cache, pager`dirty
    ensures old(pager.dirty) <= pager.dirty
    ensures pager.Valid()
    ensures ok <==> !UpdateFails(old(pager.Heap()), walk, s, where, sets)
    ensures pager.Heap() == if ok then MapPages(old(pager.Heap()), walk, UpdateEdit(s, where, sets)) else old(pager.Heap())
    ensures old(pager.Recoverable()) ==> pager.Recoverable()
  {
    var leaf := first;
    ghost var i := 0;
    ghost var h: Heap := pager.Heap();
    assert IsStop(h, walk, 0);
    NothingUpdated(h, walk, s, where, sets);
    ok := true;
    while leaf != 0 && ok
      invariant i <= |walk| && pager.Valid()
      invariant ok ==> if i < |walk| then leaf == walk[i] && leaf != 0 && leaf in pager.cache else leaf == 0
      invariant if ok then UpdatedSoFar(h, pager.Heap(), walk, i, s, where, sets)
                else UpdateFails(h, walk, s, where, sets) && pager.Heap() == h
      invariant old(pager.Recoverable()) ==> pager.Recoverable()
      invariant old(pager.dirty) <= pager.dirty
      decreases |walk| - i
    {
      ok, leaf := UpdateStep(pager, leaf, s, where, sets, h, walk, i);
      i := i + 1;
    }
    if ok {
      AllUpdated(h, pager.Heap(), walk, s, where, sets);
    }
  }

  /** With an oversized text in the SET list no row is ever rewritten. */
  lemma NothingToUndo(h: Heap, w: seq<nat>, s: Schema, where: Option<Equals>, sets: seq<Assign>)
    requires !AllTextFits(sets)
    ensures MapPages(h, w, UpdateEdit(s, where, sets)) == h
  {
    forall p | p in h
      ensures UpdateEdit(s, where, sets)(h[p]) == h[p]
    {
      if h[p].Leaf? && h[p].num <= |h[p].slots| {
        assert UpdateLeaf(h[p], h[p].num, s, where, sets).slots == h[p].slots;
      }
    }
  }

  /** `update_command` after its column and type checks. It fails exactly when some text in the
      SET list is too long and some row matches, and then it has changed nothing. */
  method UpdateRows(pager: Pager, root: nat, s: Schema, where: Option<Equals>, sets: seq<Assign>, ghost t: Tree)
    returns (ok: bool)
    requires pager.Valid() && WellFormed(t) && t.root == root && t.pages == pager.Heap()
    requires Typed(t, s) && AssignsOK(s, sets)
    modifies pager`cache, pager`dirty
    ensures old(pager.dirty) <= pager.dirty
    ensures pager.Valid()
    ensures ok <==> AllTextFits(sets) || forall c :: c in CellSet(t) ==> !Matches(s, where, c.row)
    ensures pager.Heap() == if ok then Edited(t, UpdateEdit(s, where, sets)).pages else t.pages
    ensures old(pager.Recoverable()) ==> pager.Recoverable()
  {
    var leaf := FirstLeaf(pager, root, t);
    RootWalk(t);
    TypedWalk(t, s);
    MatchesOnWalk(t, s, where);
    ok := UpdateWalk(pager, leaf, s, where, sets, Leaves(t, root));
  }

  lemma TypedWalk(t: Tree, s: Schema)
    requires WellFormed(t) && Typed(t, s) && IsWalk(t.pages, Leaves(t, t.root))
    ensures WalkTyped(t.pages, Leaves(t, t.root), s)
  {
    var walk := Leaves(t, t.root);
    RootTiles(t);
    forall x | 0 <= x < |walk|
      ensures IsStop(t.pages, walk, x) && RowsOK(t.pages[walk[x]], s)
    {
      assert IsStop(t.pages, walk, x);
      var n := t.pages[walk[x]];
      forall i | 0 <= i < n.num
        ensures RowOK(s, n.slots[i].row)
      {
        assert n.slots[i] in n.slots;
        assert n.slots[i] in AllSlots(t);
      }
    }
  }

  lemma MatchesOnWalk(t: Tree, s: Schema, where: Option<Equals>)
    requires WellFormed(t) && IsWalk(t.pages, Leaves(t, t.root))
    ensures NoMatchBefore(t.pages, Leaves(t, t.root), |Leaves(t, t.root)|, s, where)
            <==> forall c :: c in CellSet(t) ==> !Matches(s, where, c.row)
  {
    var walk := Leaves(t, t.root);
    ChainVisitsLeavesInOrder(t);
    if NoMatchBefore(t.pages, walk, |walk|, s, where) {
      forall c | c in CellSet(t)
        ensures !Matches(s, where, c.row)
      {
        var p :| p in t.shape && p in t.pages && c in Cells(t.pages[p]);
        assert p in walk;
        var x :| 0 <= x < |walk| && walk[x] == p;
        assert IsStop(t.pages, walk, x);
        assert !AnyMatch(Cells(t.pages[walk[x]]), s, where);
      }
    }
    if forall c :: c in CellSet(t) ==> !Matches(s, where, c.row) {
      RootTiles(t);
      forall x | 0 <= x < |walk|
        ensures IsStop(t.pages, walk, x) && !AnyMatch(Cells(t.pages[walk[x]]), s, where)
      {
        assert forall c :: c in Cells(t.pages[walk[x]]) ==> c in CellSet(t);
      }
    }
  }

  // UPDATE refines a pointwise map

  lemma UpdateEdits(t: Tree, s: Schema, where: Option<Equals>, sets: seq<Assign>)
    requires WellFormed(t)
    ensures Edits(t, UpdateEdit(s, where, sets))
  {
    var f := UpdateEdit(s, where, sets);
    forall p | p in t.shape && p in t.pages && t.pages[p].Leaf?
      ensures LeafEdit(t.pages[p], f(t.pages[p])) && LeafOK(f(t.pages[p]), t.shape[p], t.cap)
    {
      PageFacts(t, 0, p);
      var n, n' := t.pages[p], f(t.pages[p]);
      assert forall i :: 0 <= i < n.num ==> Cells(n')[i].key == Cells(n)[i].key;
    }
  }

  lemma UpdatedPageCells(n: Page, s: Schema, where: Option<Equals>, sets: seq<Assign>, d: Cell)
    requires n.Leaf? && n.num <= |n.slots|
    ensures d in Cells(UpdateLeaf(n, n.num, s, where, sets)) <==> exists c :: c in Cells(n) && d == UpdatedCell(s, where, sets, c)
  {
    var r := UpdateLeaf(n, n.num, s, where, sets);
    assert forall i :: 0 <= i < n.num ==> Cells(r)[i] == UpdatedCell(s, where, sets, Cells(n)[i]);
    if d in Cells(r) {
      var i :| 0 <= i < |Cells(r)| && Cells(r)[i] == d;
      assert Cells(n)[i] in Cells(n);
    }
    if c :| c in Cells(n) && d == UpdatedCell(s, where, sets, c) {
      var i :| 0 <= i < |Cells(n)| && Cells(n)[i] == c;
      assert Cells(r)[i] == d;
    }
  }

  lemma UpdateLeafCells(t: Tree, s: Schema, where: Option<Equals>, sets: seq<Assign>, d: Cell)
    requires WellFormed(t)
    ensures (exists p :: p in t.shape && p in t.pages && t.pages[p].Leaf? && d in Cells(UpdateEdit(s, where, sets)(t.pages[p])))
            <==> exists c :: c in CellSet(t) && d == UpdatedCell(s, where, sets, c)
  {
    var f := UpdateEdit(s, where, sets);
    if p :| p in t.shape && p in t.pages && t.pages[p].Leaf? && d in Cells(f(t.pages[p])) {
      PageFacts(t, 0, p);
      UpdatedPageCells(t.pages[p], s, where, sets, d);
      var c :| c in Cells(t.pages[p]) && d == UpdatedCell(s, where, sets, c);
      assert c in CellSet(t);
    }
    if c :| c in CellSet(t) && d == UpdatedCell(s, where, sets, c) {
      var p :| p in t.shape && p in t.pages && c in Cells(t.pages[p]);
      PageFacts(t, 0, p);
      UpdatedPageCells(t.pages[p], s, where, sets, d);
    }
  }

  /** UPDATE keeps the tree and its keys and rewrites exactly the matching rows. */
  lemma UpdateRefinesMap(t: Tree, s: Schema, where: Option<Equals>, sets: seq<Assign>)
    requires WellFormed(t)
    ensures WellFormed(Edited(t, UpdateEdit(s, where, sets)))
    ensures Parented(t) ==> Parented(Edited(t, UpdateEdit(s, where, sets)))
    ensures Contents(Edited(t, UpdateEdit(s, where, sets))) == UpdatedRows(s, Contents(t), where, sets)
    ensures Typed(t, s) ==> Typed(Edited(t, UpdateEdit(s, where, sets)), s)
  {
    var f := UpdateEdit(s, where, sets);
    var t' := Edited(t, f);
    UpdateEdits(t, s, where, sets);
    EditedKeepsTree(t, f);
    UpdateContents(t, s, where, sets);
    if Typed(t, s) {
      UpdateKeepsTyped(t, s, where, sets);
    }
  }

  lemma UpdateContents(t: Tree, s: Schema, where: Option<Equals>, sets: seq<Assign>)
    requires WellFormed(t) && Edits(t, UpdateEdit(s, where, sets)) && WellFormed(Edited(t, UpdateEdit(s, where, sets)))
    ensures Contents(Edited(t, UpdateEdit(s, where, sets))) == UpdatedRows(s, Contents(t), where, sets)
  {
    forall k | k in Contents(Edited(t, UpdateEdit(s, where, sets)))
      ensures k in Contents(t)
    {
      UpdatedKeyKnown(t, s, where, sets, k);
    }
    forall k | k in Contents(t)
      ensures k in Contents(Edited(t, UpdateEdit(s, where, sets)))
      ensures Contents(Edited(t, UpdateEdit(s, where, sets)))[k] == UpdatedRow(s, where, sets, Contents(t)[k])
    {
      KnownKeyUpdated(t, s, where, sets, k);
    }
    PointwiseMap(Contents(t), Contents(Edited(t, UpdateEdit(s, where, sets))), s, where, sets);
  }

  lemma PointwiseMap(m: map<Key, Row>, m': map<Key, Row>, s: Schema, where: Option<Equals>, sets: seq<Assign>)
    requires forall k :: k in m' ==> k in m
    requires forall k :: k in m ==> k in m' && m'[k] == UpdatedRow(s, where, sets, m[k])
    ensures m' == UpdatedRows(s, m, where, sets)
  {
  }

  lemma UpdatedKeyKnown(t: Tree, s: Schema, where: Option<Equals>, sets: seq<Assign>, k: Key)
    requires WellFormed(t) && Edits(t, UpdateEdit(s, where, sets)) && WellFormed(Edited(t, UpdateEdit(s, where, sets)))
    requires k in Contents(Edited(t, UpdateEdit(s, where, sets)))
    ensures k in Contents(t)
  {
    var f := UpdateEdit(s, where, sets);
    var d := Cell(k, Contents(Edited(t, f))[k]);
    EditedCells(t, f, d);
    UpdateLeafCells(t, s, where, sets, d);
  }

  lemma KnownKeyUpdated(t: Tree, s: Schema, where: Option<Equals>, sets: seq<Assign>, k: Key)
    requires WellFormed(t) && Edits(t, UpdateEdit(s, where, sets)) && WellFormed(Edited(t, UpdateEdit(s, where, sets)))
    requires k in Contents(t)
    ensures k in Contents(Edited(t, UpdateEdit(s, where, sets)))
    ensures Contents(Edited(t, UpdateEdit(s, where, sets)))[k] == UpdatedRow(s, where, sets, Contents(t)[k])
  {
    var f := UpdateEdit(s, where, sets);
    var d := UpdatedCell(s, where, sets, Cell(k, Contents(t)[k]));
    UpdateLeafCells(t, s, where, sets, d);
    EditedCells(t, f, d);
    assert d in CellSet(Edited(t, f));
  }

  lemma UpdateLeafTyped(n: Page, s: Schema, where: Option<Equals>, sets: seq<Assign>)
    requires n.Leaf? && n.num <= |n.slots| && forall c <- n.slots :: RowOK(s, c.row)
    ensures forall c <- UpdateLeaf(n, n.num, s, where, sets).slots :: RowOK(s, c.row)
  {
    var r := UpdateLeaf(n, n.num, s, where, sets);
    forall c | c in r.slots
      ensures RowOK(s, c.row)
    {
      var i :| 0 <= i < |r.slots| && r.slots[i] == c;
      assert n.slots[i] in n.slots;
    }
  }

  lemma UpdateKeepsTyped(t: Tree, s: Schema, where: Option<Equals>, sets: seq<Assign>)
    requires WellFormed(t) && Typed(t, s)
    ensures Typed(Edited(t, UpdateEdit(s, where, sets)), s)
  {
    var t' := Edited(t, UpdateEdit(s, where, sets));
    forall c | c in AllSlots(t')
      ensures RowOK(s, c.row)
    {
      var p :| p in t'.shape && p in t'.pages && t'.pages[p].Leaf? && c in t'.pages[p].slots;
      PageFacts(t, 0, p);
      var n := t.pages[p];
      assert forall d <- n.slots :: d in AllSlots(t);
      UpdateLeafTyped(n, s, where, sets);
      assert t'.pages[p] == n || t'.pages[p] == UpdateLeaf(n, n.num, s, where, sets);
    }
  }

  /** After an UPDATE the stored keys still agree with the primary-key column exactly when every
      matching row is given back the key it had; leaving the primary key out of SET is enough. */
  lemma UpdateKeysAgree(t: Tree, s: Schema, where: Option<Equals>, sets: seq<Assign>)
    requires WellFormed(t) && SchemaOK(s) && Typed(t, s) && KeysAgree(t, s) && AssignsOK(s, sets) && AllTextFits(sets)
    ensures KeysAgree(Edited(t, UpdateEdit(s, where, sets)), s) <==>
            !Assigned(sets, s.pk)
            || forall c :: c in CellSet(t) && Matches(s, where, c.row) ==> LastKey(s, sets) == IntLit(c.key)
  {
    var t' := Edited(t, UpdateEdit(s, where, sets));
    forall d
      ensures d in CellSet(t') <==> exists c :: c in CellSet(t) && d == UpdatedCell(s, where, sets, c)
    {
      UpdateEdits(t, s, where, sets);
      EditedCells(t, UpdateEdit(s, where, sets), d);
      UpdateLeafCells(t, s, where, sets, d);
    }
    forall c | c in CellSet(t)
      ensures UpdatedCell(s, where, sets, c) in CellSet(t') && s.pk < |UpdatedCell(s, where, sets, c).row|
      ensures UpdatedCell(s, where, sets, c).row[s.pk] == IntVal(c.key) <==>
              !Matches(s, where, c.row) || !Assigned(sets, s.pk) || LastKey(s, sets) == IntLit(c.key)
    {
      TypedCells(t, s, c);
      KeyAfterUpdate(s, where, sets, c);
    }
  }

  /** The literal the SET list finally assigns to the primary key. */
  function LastKey(s: Schema, sets: seq<Assign>): Literal
  {
    if sets == [] then IntLit(0)
    else if sets[|sets| - 1].column == s.pk then sets[|sets| - 1].value
    else LastKey(s, sets[..|sets| - 1])
  }

  lemma KeyAfterUpdate(s: Schema, where: Option<Equals>, sets: seq<Assign>, c: Cell)
    requires SchemaOK(s) && AssignsOK(s, sets) && AllTextFits(sets) && RowOK(s, c.row) && c.row[s.pk] == IntVal(c.key)
    ensures s.pk < |UpdatedCell(s, where, sets, c).row|
    ensures UpdatedCell(s, where, sets, c).row[s.pk] == IntVal(c.key) <==>
            !Matches(s, where, c.row) || !Assigned(sets, s.pk) || LastKey(s, sets) == IntLit(c.key)
  {
    if Matches(s, where, c.row) {
      if Assigned(sets, s.pk) {
        FinalKey(s, c.row, sets);
      } else {
        UnassignedStays(s, c.row, sets, s.pk);
      }
    }
  }

  lemma {:induction false} FinalKey(s: Schema, row: Row, sets: seq<Assign>)
    requires SchemaOK(s) && AssignsOK(s, sets) && AllTextFits(sets) && RowOK(s, row) && Assigned(sets, s.pk)
    ensures LastKey(s, sets).IntLit? && ApplySets(s, row, sets)[s.pk] == IntVal(LastKey(s, sets).integer)
    decreases |sets|
  {
    var last := |sets| - 1;
    var front := sets[..last];
    assert AssignsOK(s, front) && AllTextFits(front);
    assert AssignOK(s, sets[last]);
    var before := ApplySets(s, row, front);
    assert ValueHasType(before[s.pk], s.columns[s.pk].kind);
    if sets[last].column != s.pk {
      var j :| 0 <= j < |sets| && sets[j].column == s.pk;
      assert front[j].column == s.pk;
      FinalKey(s, row, front);
    }
  }

  // Text columns of a whole table

  /** Every stored text is followed by nothing but NUL bytes. */
  ghost predicate PaddedTree(t: Tree) { forall c :: c in CellSet(t) ==> RowPadded(c.row) }

  /** A matching row shows the j-th text of the SET list in row' if and only if no longer text lies under it;
      another row is as it was. */
  ghost predicate ShowsLastText(s: Schema, where: Option<Equals>, sets: seq<Assign>, j: nat, row: Row, row': Row)
    requires j < |sets| && sets[j].value.StrLit?
  {
    if !Matches(s, where, row) then row' == row
    else
      && |row'| == |row| > sets[j].column && row[sets[j].column].TextVal? && row'[sets[j].column].TextVal?
      && (Visible(row'[sets[j].column].text) == sets[j].value.text <==>
          CoversOthers(Visible(row[sets[j].column].text), sets, j))
  }

  /** In the table an UPDATE leaves behind, the last text assigned to a column of a matching row reads
      back if and only if no longer text lies under it; rows that do not match are as they were. */
  lemma UpdateTextReadsBack(t: Tree, s: Schema, where: Option<Equals>, sets: seq<Assign>, j: nat, k: Key)
    requires WellFormed(t) && Typed(t, s) && PaddedTree(t) && k in Contents(t)
    requires AssignsOK(s, sets) && AllTextFits(sets) && SetsNulFree(sets)
    requires j < |sets| && sets[j].value.StrLit? && forall i :: j < i < |sets| ==> sets[i].column != sets[j].column
    ensures WellFormed(Edited(t, UpdateEdit(s, where, sets))) && k in Contents(Edited(t, UpdateEdit(s, where, sets)))
    ensures ShowsLastText(s, where, sets, j, Contents(t)[k], Contents(Edited(t, UpdateEdit(s, where, sets)))[k])
  {
    var row := Contents(t)[k];
    assert Cell(k, row) in CellSet(t);
    TypedCells(t, s, Cell(k, row));
    UpdateRefinesMap(t, s, where, sets);
    LastAssignmentWins(s, row, sets, j);
  }

  /** UPDATE keeps every stored text padded. */
  lemma UpdatedRowPadded(s: Schema, where: Option<Equals>, sets: seq<Assign>, row: Row)
    requires SetsNulFree(sets) && RowPadded(row)
    ensures RowPadded(UpdatedRow(s, where, sets, row))
  {
    if RowOK(s, row) && AssignsOK(s, sets) && AllTextFits(sets) {
      ApplySetsPadded(s, row, sets);
    }
  }

  // Texts that end inside their buffer

  /** No text literal fills a buffer to its last byte. */
  ghost predicate SetsShort(sets: seq<Assign>) {
    forall j :: 0 <= j < |sets| && sets[j].value.StrLit? ==> |sets[j].value.text| != VALUE_TEXT_MAX_LEN
  }

  lemma {:induction false} ApplySetsEnded(s: Schema, row: Row, sets: seq<Assign>)
    requires RowOK(s, row) && AssignsOK(s, sets) && AllTextFits(sets) && SetsShort(sets) && RowEnded(row)
    ensures RowEnded(ApplySets(s, row, sets))
    decreases |sets|
  {
    if sets != [] {
      var front, a := sets[..|sets| - 1], sets[|sets| - 1];
      assert AssignsOK(s, front) && AllTextFits(front) && SetsShort(front);
      ApplySetsEnded(s, row, front);
      assert AssignOK(s, a) && TextFits(a.value);
      var before := ApplySets(s, row, front);
      assert ValueHasType(before[a.column], s.columns[a.column].kind);
    }
  }

  lemma UpdatedRowEnded(s: Schema, where: Option<Equals>, sets: seq<Assign>, row: Row)
    requires SetsShort(sets) && RowEnded(row)
    ensures RowEnded(UpdatedRow(s, where, sets, row))
  {
    if RowOK(s, row) && AssignsOK(s, sets) && AllTextFits(sets) {
      ApplySetsEnded(s, row, sets);
    }
  }

  lemma UpdateKeepsSlotsEnded(t: Tree, s: Schema, where: Option<Equals>, sets: seq<Assign>)
    requires WellFormed(t) && SetsShort(sets) && forall c :: c in AllSlots(t) ==> RowEnded(c.row)
    ensures forall c :: c in AllSlots(Edited(t, UpdateEdit(s, where, sets))) ==> RowEnded(c.row)
  {
    var t' := Edited(t, UpdateEdit(s, where, sets));
    forall c | c in AllSlots(t')
      ensures RowEnded(c.row)
    {
      var p :| p in t'.shape && p in t'.pages && t'.pages[p].Leaf? && c in t'.pages[p].slots;
      PageFacts(t, 0, p);
      var n := t.pages[p];
      var i :| 0 <= i < |t'.pages[p].slots| && t'.pages[p].slots[i] == c;
      assert t'.pages[p] == n || t'.pages[p] == UpdateLeaf(n, n.num, s, where, sets);
      assert n.slots[i] in n.slots && n.slots[i] in AllSlots(t);
      UpdatedRowEnded(s, where, sets, n.slots[i].row);
    }
  }
}
