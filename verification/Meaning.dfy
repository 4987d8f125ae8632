/** What names, conditions, literals and column lists mean, said without the functions that compute it. */
module Meanings {
  import opened Rows

  // Names

  /** Column j is the first of that name, in any case. */
  ghost predicate FirstNamed(s: Schema, name: string, j: nat) {
    && j < |s.columns| && ColumnNameIs(name, s.columns[j].name)
    && forall i :: 0 <= i < j ==> !ColumnNameIs(name, s.columns[i].name)
  }

  ghost predicate Named(s: Schema, name: string) { exists j :: FirstNamed(s, name, j) }

  /** The column search finds exactly the first column of the name. */
  lemma FoundIsFirst(s: Schema, name: string, j: nat)
    ensures FirstNamed(s, name, j) <==> j == FindColumn(s.columns, name) < |s.columns|
    ensures Named(s, name) <==> FindColumn(s.columns, name) < |s.columns|
  {
    var i := FindColumn(s.columns, name);
    if i < |s.columns| {
      assert FirstNamed(s, name, i);
    }
  }

  // Values

  ghost predicate NulFree(text: seq<byte>) { forall i :: 0 <= i < |text| ==> text[i] != 0 }

  /** Nothing but NUL bytes follow the text. */
  ghost predicate ZeroPadded(text: seq<byte>) { forall i :: StrLen(text) <= i < |text| ==> text[i] == 0 }

  lemma StrLenIs(text: seq<byte>, n: nat)
    requires n <= |text| && (forall i :: 0 <= i < n ==> text[i] != 0) && (n < |text| ==> text[n] == 0)
    ensures StrLen(text) == n
  {
  }

  /** A text literal written by INSERT reads back as itself. */
  lemma FreshTextReadsBack(text: seq<byte>)
    requires |text| <= VALUE_TEXT_MAX_LEN && NulFree(text)
    ensures Visible(FreshValue(StrLit(text)).text) == text
    ensures ZeroPadded(FreshValue(StrLit(text)).text)
  {
    StrLenIs(text + Zeros(VALUE_TEXT_MAX_LEN - |text|), |text|);
  }

  /** A reader of this value sees the literal: the same number or flag, or a buffer that holds the
      text, which has no NUL in it, and then a NUL or nothing. */
  ghost predicate Shows(v: Value, lit: Literal) {
    match lit
    case IntLit(n) => v == IntVal(n)
    case BoolLit(b) => v == BoolVal(b)
    case StrLit(t) =>
      && v.TextVal? && |t| <= |v.text| && v.text[..|t|] == t && NulFree(t)
      && (|t| < |v.text| ==> v.text[|t|] == 0)
  }

  lemma VisibleShows(text: seq<byte>, t: seq<byte>)
    ensures Visible(text) == t <==> Shows(TextVal(text), StrLit(t))
  {
    if Shows(TextVal(text), StrLit(t)) {
      forall i | 0 <= i < |t|
        ensures text[i] != 0
      {
        assert text[..|t|][i] == t[i];
      }
      StrLenIs(text, |t|);
    }
  }

  /** A value shows at most one literal. */
  lemma ShowsOne(v: Value, a: Literal, b: Literal)
    requires Shows(v, a) && Shows(v, b)
    ensures a == b
  {
    if a.StrLit? {
      VisibleShows(v.text, a.text);
      VisibleShows(v.text, b.text);
    }
  }

  /** A condition compares what a reader sees. */
  lemma EqualsShown(v: Value, lit: Literal)
    ensures LiteralEquals(v, lit) <==> Shows(v, lit)
  {
    if v.TextVal? && lit.StrLit? {
      VisibleShows(v.text, lit.text);
    }
  }

  /** INSERT stores a value that shows its literal. */
  lemma FreshShows(lit: Literal)
    requires TextFits(lit) && (lit.StrLit? ==> NulFree(lit.text))
    ensures Shows(FreshValue(lit), lit)
  {
    if lit.StrLit? {
      FreshTextReadsBack(lit.text);
      VisibleShows(FreshValue(lit).text, lit.text);
    }
  }

  /** A stored literal equals another in WHERE if and only if they are the same. */
  lemma StoredEquals(a: Literal, b: Literal)
    requires TextFits(a) && (a.StrLit? ==> NulFree(a.text))
    ensures LiteralEquals(FreshValue(a), b) <==> a == b
  {
    FreshShows(a);
    EqualsShown(FreshValue(a), b);
    if LiteralEquals(FreshValue(a), b) {
      ShowsOne(FreshValue(a), a, b);
    }
  }

  /** The row shows the values, one by one. */
  ghost predicate ShowsAll(row: Row, values: seq<Literal>) {
    |row| == |values| && forall i :: 0 <= i < |values| ==> Shows(row[i], values[i])
  }

  ghost predicate NulFreeValues(values: seq<Literal>) {
    forall i :: 0 <= i < |values| && values[i].StrLit? ==> NulFree(values[i].text)
  }

  lemma RowFromShows(values: seq<Literal>)
    requires ValuesFit(values) && NulFreeValues(values)
    ensures ShowsAll(RowFrom(values), values)
  {
    forall i | 0 <= i < |values|
      ensures Shows(RowFrom(values)[i], values[i])
    {
      assert TextFits(values[i]);
      FreshShows(values[i]);
    }
  }

  // Conditions

  /** The row meets the condition: the first column of its name shows its literal. */
  ghost predicate Satisfies(s: Schema, where: Option<Equals>, row: Row) {
    where.Some? ==>
      exists j: nat :: FirstNamed(s, where.value.column, j) && j < |row| && Shows(row[j], where.value.value)
  }

  lemma MatchesMeans(s: Schema, where: Option<Equals>, row: Row)
    requires RowOK(s, row)
    ensures Matches(s, where, row) <==> Satisfies(s, where, row)
  {
    if where.Some? {
      var j := FindColumn(s.columns, where.value.column);
      FoundIsFirst(s, where.value.column, j);
      if j < |row| {
        EqualsShown(row[j], where.value.value);
      }
      forall i: nat | FirstNamed(s, where.value.column, i)
        ensures i == j
      {
        FoundIsFirst(s, where.value.column, i);
      }
    }
  }

  /** Two conditions on one column that the same row meets ask for the same literal. */
  lemma ConditionUnique(s: Schema, column: string, a: Literal, b: Literal, row: Row)
    requires RowOK(s, row) && Matches(s, Some(Equals(column, a)), row) && Matches(s, Some(Equals(column, b)), row)
    ensures a == b
  {
    var j := FindColumn(s.columns, column);
    EqualsShown(row[j], a);
    EqualsShown(row[j], b);
    ShowsOne(row[j], a, b);
  }

  // Column lists

  /** `out` is the row as a SELECT with these columns shows it: all of it, or for each name the value of the first
      column of that name. */
  ghost predicate Projects(s: Schema, columns: seq<string>, row: Row, out: Row) {
    if columns == [] then out == row
    else
      && |out| == |columns|
      && forall i, j: nat :: 0 <= i < |columns| && FirstNamed(s, columns[i], j) && j < |row| ==> out[i] == row[j]
  }

  /** The keys are those of the rows that meet the condition, in order. */
  ghost predicate Finds(keys: seq<Key>, s: Schema, where: Option<Equals>, rows: map<Key, Row>) {
    && (forall i, j :: 0 <= i < j < |keys| ==> keys[i] < keys[j])
    && forall k: Key :: k in keys <==> k in rows && Satisfies(s, where, rows[k])
  }
}
