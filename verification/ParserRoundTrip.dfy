/** Which texts are which statements: lexer and parser together against spelling and grammar, and against a printer. */
module ParserRoundTrips {
  import opened Rows
  import opened Lexer
  import opened Spellings
  import opened Parsers
  import opened Grammars

  // Texts as tokens

  /** From i to j the text writes the tokens ts, with blanks anywhere between, and where words meet. */
  ghost predicate Written(text: string, i: nat, ts: seq<Token>, j: nat)
    decreases |ts|
  {
    if ts == [] then i == j <= |text|
    else exists m: nat :: Spelt(text, i, ts[0], m) && Written(text, m, ts[1..], j)
  }

  /** The stream of the text from i on. */
  function At(text: string, i: nat): Stream
    requires i <= |text|
  {
    LexerOfProgresses(text);
    Advance(Position(LexerOf(text), |text|, i, EOF))
  }

  lemma AtNext(text: string, i: nat)
    requires i <= |text|
    ensures At(text, i).current == NextToken(text, i).token
    ensures Advance(At(text, i)) == At(text, NextToken(text, i).cursor)
  {
    LexerOfProgresses(text);
  }

  lemma {:induction false} WrittenGoes(text: string, i: nat, ts: seq<Token>, j: nat)
    requires i <= |text| && Written(text, i, ts, j)
    ensures j <= |text| && Goes(At(text, i), ts, At(text, j))
    decreases |ts|
  {
    if ts != [] {
      var m: nat :| Spelt(text, i, ts[0], m) && Written(text, m, ts[1..], j);
      SpeltLexes(text, i, ts[0], m);
      AtNext(text, i);
      WrittenGoes(text, m, ts[1..], j);
    }
  }

  predicate Proper(t: Token) { !t.EOF? && !t.INVALID? }

  predicate AllProper(ts: seq<Token>) { forall t <- ts :: Proper(t) }

  predicate AllPrintable(ts: seq<Token>) { forall t <- ts :: Printable(t) }

  lemma {:induction false} GoesWritten(text: string, i: nat, ts: seq<Token>, r: Stream) returns (j: nat)
    requires i <= |text| && Goes(At(text, i), ts, r) && AllProper(ts)
    ensures j <= |text| && Written(text, i, ts, j) && r == At(text, j) && AllPrintable(ts)
    decreases |ts|
  {
    j := i;
    if ts != [] {
      var m := NextToken(text, i).cursor;
      AtNext(text, i);
      LexedSpelt(text, i);
      LexedTokensPrintable(text, i);
      assert Proper(ts[0]);
      j := GoesWritten(text, m, ts[1..], r);
      FromTail(ts);
    }
  }

  // The tokens of a statement

  lemma {:induction false} NamesProper(columns: seq<string>, ts: seq<Token>)
    requires IsNames(columns, ts)
    ensures AllProper(ts) && (AllPrintable(ts) ==> forall w <- columns :: NameOK(w))
    decreases |ts|
  {
    if ts != [] {
      var more := if ts[0].COMMA? then columns else columns[1..];
      NamesProper(more, ts[1..]);
      FromTail(ts);
      assert !ts[0].COMMA? ==> columns == [columns[0]] + more;
    }
  }

  lemma FromTail(ts: seq<Token>)
    requires ts != []
    ensures AllProper(ts) <==> Proper(ts[0]) && AllProper(ts[1..])
    ensures AllPrintable(ts) <==> Printable(ts[0]) && AllPrintable(ts[1..])
  {
    assert ts == [ts[0]] + ts[1..];
  }

  lemma Joined(a: seq<Token>, b: seq<Token>)
    ensures AllProper(a + b) <==> AllProper(a) && AllProper(b)
    ensures AllPrintable(a + b) <==> AllPrintable(a) && AllPrintable(b)
  {
  }

  lemma {:induction false} ValuesProper(values: seq<Expr>, ts: seq<Token>)
    requires IsValues(values, ts)
    ensures AllProper(ts) && (AllPrintable(ts) ==> forall e <- values :: PrimaryOK(e))
    decreases |ts|
  {
    if ts != [] {
      var more := if ts[0].COMMA? then values else values[1..];
      ValuesProper(more, ts[1..]);
      FromTail(ts);
      assert !ts[0].COMMA? ==> values == [values[0]] + more;
    }
  }

  lemma {:induction false} SettingsProper(sets: seq<Setting>, ts: seq<Token>)
    requires IsSettings(sets, ts)
    ensures AllProper(ts) && (AllPrintable(ts) ==> forall x <- sets :: NameOK(x.column) && PrimaryOK(x.value))
    decreases |ts|
  {
    if ts != [] {
      if ts[0].COMMA? {
        SettingsProper(sets, ts[1..]);
        FromTail(ts);
      } else {
        SettingsProper(sets[1..], ts[3..]);
        SettingProper(sets[0], ts);
        assert sets == [sets[0]] + sets[1..];
      }
    }
  }

  lemma SettingProper(x: Setting, ts: seq<Token>)
    requires |ts| >= 3 && ts[..3] == [IDENTIFIER(x.column), EQUAL, PrimaryToken(x.value)] && !x.value.Equal?
    ensures AllProper(ts) <==> AllProper(ts[3..])
    ensures AllPrintable(ts) <==> AllPrintable(ts[3..]) && NameOK(x.column) && PrimaryOK(x.value)
  {
    Joined(ts[..3], ts[3..]);
    assert ts == ts[..3] + ts[3..];
    Three(IDENTIFIER(x.column), EQUAL, PrimaryToken(x.value));
  }

  lemma Three(a: Token, b: Token, c: Token)
    ensures AllProper([a, b, c]) <==> Proper(a) && Proper(b) && Proper(c)
    ensures AllPrintable([a, b, c]) <==> Printable(a) && Printable(b) && Printable(c)
  {
    assert a in [a, b, c] && b in [a, b, c] && c in [a, b, c];
  }

  lemma {:induction false} ColumnDefsProper(defs: seq<ColumnDef>, first: bool)
    ensures var ts := ColumnDefsTokens(defs, first);
            AllProper(ts) && (AllPrintable(ts) <==> forall d <- defs :: NameOK(d.name))
  {
    if defs != [] {
      var d, more := defs[0], ColumnDefsTokens(defs[1..], false);
      ColumnDefsProper(defs[1..], false);
      ColumnDefProper(d);
      Joined(ColumnDefTokens(d), more);
      Joined(if first then [] else [COMMA], ColumnDefTokens(d) + more);
      assert defs == [d] + defs[1..];
    }
  }

  lemma ColumnDefProper(d: ColumnDef)
    ensures AllProper(ColumnDefTokens(d)) && (AllPrintable(ColumnDefTokens(d)) <==> NameOK(d.name))
  {
    var ts := ColumnDefTokens(d);
    assert AllPrintable(ts) ==> Printable(ts[0]);
  }

  lemma ExprProper(e: Expr, ts: seq<Token>, next: Token)
    requires IsExpr(e, ts, next)
    ensures AllProper(ts) && (AllPrintable(ts) ==> ExprOK(e))
  {
    assert AllPrintable(ts) ==> Printable(ts[0]) && Printable(ts[|ts| - 1]);
  }

  lemma WhereProper(where: Option<Expr>, ts: seq<Token>, next: Token)
    requires IsWhere(where, ts, next)
    ensures AllProper(ts) && (AllPrintable(ts) ==> WhereOK(where))
  {
    if where.Some? {
      ExprProper(where.value, ts[1..], next);
      FromTail(ts);
    }
  }

  lemma SelectProper(a: Ast, ts: seq<Token>, next: Token)
    requires a.AstSelect? && Derives(a, ts, next)
    ensures AllProper(ts) && (AllPrintable(ts) ==> AstOK(a))
  {
    var list, w :| IsSelectList(a.isStar, a.columns, list) && IsWhere(a.where, w, next)
                   && ts == [SELECT] + list + [FROM, IDENTIFIER(a.table)] + w;
    if !a.isStar { NamesProper(a.columns, list); }
    WhereProper(a.where, w, next);
    Framed([SELECT], list, [FROM, IDENTIFIER(a.table)], w, a.table);
  }

  lemma InsertProper(a: Ast, ts: seq<Token>, next: Token)
    requires a.AstInsert? && Derives(a, ts, next)
    ensures AllProper(ts) && (AllPrintable(ts) ==> AstOK(a))
  {
    var list :| IsValues(a.values, list) && ts == InsertHead(a.table) + list + [RPAREN];
    ValuesProper(a.values, list);
    HeadsProper(a.table);
    Closed(InsertHead(a.table), list, a.table);
  }

  lemma CreateProper(a: Ast, ts: seq<Token>, next: Token)
    requires a.AstCreate? && Derives(a, ts, next)
    ensures AllProper(ts) && (AllPrintable(ts) ==> AstOK(a))
  {
    ColumnDefsProper(a.columnDefs, true);
    SingleKeyCounted(a.columnDefs);
    HeadsProper(a.table);
    Closed(CreateHead(a.table), ColumnDefsTokens(a.columnDefs, true), a.table);
  }

  lemma UpdateProper(a: Ast, ts: seq<Token>, next: Token)
    requires a.AstUpdate? && Derives(a, ts, next)
    ensures AllProper(ts) && (AllPrintable(ts) ==> AstOK(a))
  {
    var list, e :| IsSettings(a.sets, list) && IsExpr(a.condition, e, next) && ts == UpdateHead(a.table) + list + [WHERE] + e;
    SettingsProper(a.sets, list);
    ExprProper(a.condition, e, next);
    Framed(UpdateHead(a.table), list, [WHERE], e, a.table);
  }

  lemma DeleteProper(a: Ast, ts: seq<Token>, next: Token)
    requires a.AstDelete? && Derives(a, ts, next)
    ensures AllProper(ts) && (AllPrintable(ts) ==> AstOK(a))
  {
    var w :| IsWhere(a.where, w, next) && ts == DeleteHead(a.table) + w;
    WhereProper(a.where, w, next);
    Framed(DeleteHead(a.table), [], [], w, a.table);
    assert DeleteHead(a.table) + [] + [] + w == ts;
  }

  /** All tokens of a statement are proper, and if they can be printed, so can the statement. */
  lemma DerivedOK(a: Ast, ts: seq<Token>, next: Token)
    requires Derives(a, ts, next)
    ensures AllProper(ts) && (AllPrintable(ts) ==> AstOK(a))
  {
    match a
    case AstSelect(_, _, _, _) => SelectProper(a, ts, next);
    case AstInsert(_, _) => InsertProper(a, ts, next);
    case AstCreate(_, _) => CreateProper(a, ts, next);
    case AstUpdate(_, _, _) => UpdateProper(a, ts, next);
    case AstDelete(_, _) => DeleteProper(a, ts, next);
  }

  /** A head that names the table, a list, and a closing parenthesis. */
  lemma Closed(head: seq<Token>, list: seq<Token>, table: string)
    requires IDENTIFIER(table) in head
    ensures AllProper(head + list + [RPAREN]) <==> AllProper(head) && AllProper(list)
    ensures AllPrintable(head + list + [RPAREN]) <==> AllPrintable(head) && AllPrintable(list)
    ensures AllPrintable(head) ==> NameOK(table)
  {
    Joined(head, list);
    Joined(head + list, [RPAREN]);
  }

  lemma HeadsProper(table: string)
    ensures AllProper(InsertHead(table)) && (AllPrintable(InsertHead(table)) <==> NameOK(table))
    ensures AllProper(CreateHead(table)) && (AllPrintable(CreateHead(table)) <==> NameOK(table))
    ensures IDENTIFIER(table) in InsertHead(table) && IDENTIFIER(table) in CreateHead(table)
  {
  }

  /** Four runs of tokens, the first or third of which names the table. */
  lemma Framed(a: seq<Token>, b: seq<Token>, c: seq<Token>, d: seq<Token>, table: string)
    requires IDENTIFIER(table) in a || IDENTIFIER(table) in c
    ensures AllProper(a + b + c + d) <==> AllProper(a) && AllProper(b) && AllProper(c) && AllProper(d)
    ensures AllPrintable(a + b + c + d) <==> AllPrintable(a) && AllPrintable(b) && AllPrintable(c) && AllPrintable(d)
    ensures AllPrintable(a + b + c + d) ==> NameOK(table)
  {
    Joined(a, b);
    Joined(a + b, c);
    Joined(a + b + c, d);
  }

  /** The text of a statement ends where its tokens do and the next token does not continue it. */
  ghost predicate Says(text: string, a: Ast, ts: seq<Token>, j: nat) {
    j <= |text| && Written(text, 0, ts, j) && Derives(a, ts, NextToken(text, j).token)
  }

  /** A text parses to a statement if and only if it begins with tokens of that statement, spelt in any way, and no
      token behind them continues it; whatever else follows. */
  lemma ParserExact(text: string, a: Ast)
    ensures ParseSql(text) == Some(a) <==> exists ts, j :: Says(text, a, ts, j)
  {
    AtNext(text, 0);
    assert Start(text) == At(text, 0);
    if ParseSql(text) == Some(a) {
      var r := StatementAt(Start(text)).rest;
      var ts := StatementSound(Start(text));
      DerivedOK(a, ts, r.current);
      var j := GoesWritten(text, 0, ts, r);
      AtNext(text, j);
      assert Says(text, a, ts, j);
    }
    forall ts, j | Says(text, a, ts, j)
      ensures ParseSql(text) == Some(a)
    {
      WrittenGoes(text, 0, ts, j);
      AtNext(text, j);
      StatementComplete(At(text, 0), a, ts, At(text, j));
    }
  }

  /** Whatever text parses, the statement it stands for is expressible: names are names, numbers
      fit, at most eight items, and a new table has exactly one INTEGER primary key. */
  lemma ParsedStatementOK(text: string)
    requires ParseSql(text).Some?
    ensures AstOK(ParseSql(text).value)
  {
    var a, r := ParseSql(text).value, StatementAt(Start(text)).rest;
    AtNext(text, 0);
    assert Start(text) == At(text, 0);
    var ts := StatementSound(Start(text));
    DerivedOK(a, ts, r.current);
    var j := GoesWritten(text, 0, ts, r);
  }

  // Printing a statement

  function ExprTokens(e: Expr): seq<Token> {
    if e.Equal? then [PrimaryToken(e.left), EQUAL, PrimaryToken(e.right)] else [PrimaryToken(e)]
  }

  function WhereTokens(where: Option<Expr>): seq<Token> {
    if where.None? then [] else [WHERE] + ExprTokens(where.value)
  }

  /** The comma between list items. */
  function Comma(last: bool): seq<Token> { if last then [] else [COMMA] }

  function NameTokens(columns: seq<string>): seq<Token> {
    if columns == [] then []
    else [IDENTIFIER(columns[0])] + (Comma(|columns| == 1) + NameTokens(columns[1..]))
  }

  function ValueTokens(values: seq<Expr>): seq<Token> {
    if values == [] then []
    else [PrimaryToken(values[0])] + (Comma(|values| == 1) + ValueTokens(values[1..]))
  }

  function SettingTokens(sets: seq<Setting>): seq<Token> {
    if sets == [] then []
    else SettingToken(sets[0]) + (Comma(|sets| == 1) + SettingTokens(sets[1..]))
  }

  function SettingToken(x: Setting): seq<Token> { [IDENTIFIER(x.column), EQUAL, PrimaryToken(x.value)] }

  function AstTokens(a: Ast): seq<Token> {
    match a
    case AstSelect(isStar, columns, table, where) =>
      [SELECT] + (if isStar then [STAR] else NameTokens(columns)) + [FROM, IDENTIFIER(table)] + WhereTokens(where)
    case AstInsert(table, values) => InsertHead(table) + ValueTokens(values) + [RPAREN]
    case AstCreate(table, defs) => CreateHead(table) + ColumnDefsTokens(defs, true) + [RPAREN]
    case AstUpdate(table, sets, condition) => UpdateHead(table) + SettingTokens(sets) + [WHERE] + ExprTokens(condition)
    case AstDelete(table, where) => DeleteHead(table) + WhereTokens(where)
  }

  /** Words, each behind a blank. */
  function Print(words: seq<string>): string {
    if words == [] then "" else " " + words[0] + Print(words[1..])
  }

  function Texts(ts: seq<Token>): seq<string> { seq(|ts|, x requires 0 <= x < |ts| => TokenText(ts[x])) }

  /** The canonical SQL text of a statement: its tokens, each behind a blank. */
  function PrintSql(a: Ast): string { Print(Texts(AstTokens(a))) }

  /** The statement is over when this token follows: no WHERE where one could stand, no `=` behind a lone primary. */
  predicate Over(a: Ast, next: Token) {
    match a
    case AstSelect(_, _, _, where) => WhereOver(where, next)
    case AstDelete(_, where) => WhereOver(where, next)
    case AstUpdate(_, _, condition) => !condition.Equal? ==> !next.EQUAL?
    case _ => true
  }

  predicate WhereOver(where: Option<Expr>, next: Token) {
    if where.None? then !next.WHERE? else !where.value.Equal? ==> !next.EQUAL?
  }

  /** A comma in front leaves a list what it is. */
  lemma CommaFirst(last: bool, ts: seq<Token>)
    ensures AllPrintable(Comma(last) + ts) <==> AllPrintable(ts)
    ensures forall columns :: IsNames(columns, ts) ==> IsNames(columns, Comma(last) + ts)
    ensures forall values :: IsValues(values, ts) ==> IsValues(values, Comma(last) + ts)
    ensures forall sets :: IsSettings(sets, ts) ==> IsSettings(sets, Comma(last) + ts)
  {
    Joined(Comma(last), ts);
    if last {
      assert [] + ts == ts;
    } else {
      assert ([COMMA] + ts)[1..] == ts;
    }
  }

  lemma NameFirst(columns: seq<string>, ts: seq<Token>)
    requires columns != [] && IsNames(columns[1..], ts)
    ensures IsNames(columns, [IDENTIFIER(columns[0])] + ts)
    ensures NameOK(columns[0]) && AllPrintable(ts) ==> AllPrintable([IDENTIFIER(columns[0])] + ts)
  {
    assert ([IDENTIFIER(columns[0])] + ts)[1..] == ts;
    FromTail([IDENTIFIER(columns[0])] + ts);
  }

  lemma ValueFirst(values: seq<Expr>, ts: seq<Token>)
    requires values != [] && PrimaryOK(values[0]) && IsValues(values[1..], ts)
    ensures IsValues(values, [PrimaryToken(values[0])] + ts)
    ensures AllPrintable(ts) ==> AllPrintable([PrimaryToken(values[0])] + ts)
  {
    assert ([PrimaryToken(values[0])] + ts)[1..] == ts;
    FromTail([PrimaryToken(values[0])] + ts);
  }

  lemma SettingFirst(sets: seq<Setting>, ts: seq<Token>)
    requires sets != [] && NameOK(sets[0].column) && PrimaryOK(sets[0].value) && IsSettings(sets[1..], ts)
    ensures IsSettings(sets, SettingToken(sets[0]) + ts)
    ensures AllPrintable(ts) ==> AllPrintable(SettingToken(sets[0]) + ts)
  {
    var all := SettingToken(sets[0]) + ts;
    assert all[..3] == SettingToken(sets[0]) && all[3..] == ts;
    Joined(SettingToken(sets[0]), ts);
  }

  lemma {:induction false} NamesDerive(columns: seq<string>)
    requires forall w <- columns :: NameOK(w)
    ensures IsNames(columns, NameTokens(columns)) && AllPrintable(NameTokens(columns))
  {
    if columns != [] {
      NamesDerive(columns[1..]);
      CommaFirst(|columns| == 1, NameTokens(columns[1..]));
      NameFirst(columns, Comma(|columns| == 1) + NameTokens(columns[1..]));
    }
  }

  lemma {:induction false} ValuesDerive(values: seq<Expr>)
    requires forall e <- values :: PrimaryOK(e)
    ensures IsValues(values, ValueTokens(values)) && AllPrintable(ValueTokens(values))
  {
    if values != [] {
      ValuesDerive(values[1..]);
      CommaFirst(|values| == 1, ValueTokens(values[1..]));
      ValueFirst(values, Comma(|values| == 1) + ValueTokens(values[1..]));
    }
  }

  lemma {:induction false} SettingsDerive(sets: seq<Setting>)
    requires forall x <- sets :: NameOK(x.column) && PrimaryOK(x.value)
    ensures IsSettings(sets, SettingTokens(sets)) && AllPrintable(SettingTokens(sets))
  {
    if sets != [] {
      SettingsDerive(sets[1..]);
      CommaFirst(|sets| == 1, SettingTokens(sets[1..]));
      SettingFirst(sets, Comma(|sets| == 1) + SettingTokens(sets[1..]));
    }
  }

  lemma ExprDerives(e: Expr, next: Token)
    requires ExprOK(e) && (!e.Equal? ==> !next.EQUAL?)
    ensures IsExpr(e, ExprTokens(e), next) && AllPrintable(ExprTokens(e))
  {
  }

  lemma WhereDerives(where: Option<Expr>, next: Token)
    requires WhereOK(where) && WhereOver(where, next)
    ensures IsWhere(where, WhereTokens(where), next) && AllPrintable(WhereTokens(where))
  {
    if where.Some? {
      ExprDerives(where.value, next);
      assert WhereTokens(where)[1..] == ExprTokens(where.value);
      FromTail(WhereTokens(where));
    }
  }

  lemma ListDerives(isStar: bool, columns: seq<string>, list: seq<Token>)
    requires |columns| <= MAX_TABLE_COLUMNS && (forall w <- columns :: NameOK(w)) && (isStar ==> columns == [])
    requires list == if isStar then [STAR] else NameTokens(columns)
    ensures IsSelectList(isStar, columns, list) && AllPrintable(list)
  {
    if !isStar {
      NamesDerive(columns);
    }
  }

  lemma SelectDerives(a: Ast, next: Token)
    requires a.AstSelect? && AstOK(a) && Over(a, next)
    ensures Derives(a, AstTokens(a), next) && AllPrintable(AstTokens(a))
  {
    var list := if a.isStar then [STAR] else NameTokens(a.columns);
    WhereDerives(a.where, next);
    ListDerives(a.isStar, a.columns, list);
    Framed([SELECT], list, [FROM, IDENTIFIER(a.table)], WhereTokens(a.where), a.table);
  }

  lemma InsertDerives(a: Ast, next: Token)
    requires a.AstInsert? && AstOK(a)
    ensures Derives(a, AstTokens(a), next) && AllPrintable(AstTokens(a))
  {
    ValuesDerive(a.values);
    HeadsProper(a.table);
    Closed(InsertHead(a.table), ValueTokens(a.values), a.table);
  }

  lemma CreateDerives(a: Ast, next: Token)
    requires a.AstCreate? && AstOK(a)
    ensures Derives(a, AstTokens(a), next) && AllPrintable(AstTokens(a))
  {
    ColumnDefsProper(a.columnDefs, true);
    SingleKeyCounted(a.columnDefs);
    HeadsProper(a.table);
    Closed(CreateHead(a.table), ColumnDefsTokens(a.columnDefs, true), a.table);
  }

  lemma UpdateDerives(a: Ast, next: Token)
    requires a.AstUpdate? && AstOK(a) && Over(a, next)
    ensures Derives(a, AstTokens(a), next) && AllPrintable(AstTokens(a))
  {
    SettingsDerive(a.sets);
    ExprDerives(a.condition, next);
    Framed(UpdateHead(a.table), SettingTokens(a.sets), [WHERE], ExprTokens(a.condition), a.table);
  }

  lemma DeleteDerives(a: Ast, next: Token)
    requires a.AstDelete? && AstOK(a) && Over(a, next)
    ensures Derives(a, AstTokens(a), next) && AllPrintable(AstTokens(a))
  {
    WhereDerives(a.where, next);
    Joined(DeleteHead(a.table), WhereTokens(a.where));
  }

  /** The canonical tokens of an expressible statement are tokens of it, and can be printed. */
  lemma TokensDerive(a: Ast, next: Token)
    requires AstOK(a) && Over(a, next)
    ensures Derives(a, AstTokens(a), next) && AllPrintable(AstTokens(a))
  {
    match a
    case AstSelect(_, _, _, _) => SelectDerives(a, next);
    case AstInsert(_, _) => InsertDerives(a, next);
    case AstCreate(_, _) => CreateDerives(a, next);
    case AstUpdate(_, _, _) => UpdateDerives(a, next);
    case AstDelete(_, _) => DeleteDerives(a, next);
  }

  /** From i to j the text is these words, each behind a blank. */
  ghost predicate Printed(text: string, i: nat, words: seq<string>, j: nat)
    decreases |words|
  {
    if words == [] then i == j <= |text|
    else
      var m := i + 1 + |words[0]|;
      m <= |text| && text[i] == ' ' && text[i + 1..m] == words[0] && Printed(text, m, words[1..], j)
  }

  lemma BehindBlank(w: string, more: string, tail: string)
    ensures " " + w + more + tail == " " + w + (more + tail)
  {
  }

  lemma {:induction false} PrintPrinted(text: string, i: nat, words: seq<string>, tail: string)
    requires i <= |text| && text[i..] == Print(words) + tail
    ensures |tail| <= |text| && Printed(text, i, words, |text| - |tail|)
    decreases |words|
  {
    if words == [] {
      assert "" + tail == tail;
    } else {
      BehindBlank(words[0], Print(words[1..]), tail);
      PrintedHead(text, i, words[0], Print(words[1..]) + tail);
      PrintPrinted(text, i + 1 + |words[0]|, words[1..], tail);
    }
  }

  lemma {:induction false} PrintedEnds(text: string, i: nat, words: seq<string>, j: nat)
    requires Printed(text, i, words, j)
    ensures i <= j <= |text| && (i < j ==> text[i] == ' ')
    decreases |words|
  {
    if words != [] {
      PrintedEnds(text, i + 1 + |words[0]|, words[1..], j);
    }
  }

  lemma {:induction false} PrintedWritten(text: string, i: nat, ts: seq<Token>, words: seq<string>, j: nat)
    requires words == Texts(ts) && Printed(text, i, words, j) && AllPrintable(ts) && (j < |text| ==> !IsWordChar(text[j]))
    ensures i <= j <= |text| && Written(text, i, ts, j)
    decreases |ts|
  {
    if ts != [] {
      var m := i + 1 + |words[0]|;
      FromTail(ts);
      assert words[1..] == Texts(ts[1..]);
      PrintedEnds(text, m, words[1..], j);
      PrintedWritten(text, m, ts[1..], words[1..], j);
      PrintedTokenSpelt(text, i, ts[0], m);
    }
  }

  lemma PrintedHead(text: string, i: nat, w: string, more: string)
    requires i <= |text| && text[i..] == " " + w + more
    ensures i + 1 + |w| <= |text| && text[i] == ' ' && text[i + 1..i + 1 + |w|] == w && text[i + 1 + |w|..] == more
    ensures i + 1 + |w| < |text| ==> more != "" && text[i + 1 + |w|] == more[0]
  {
    var tail := text[i..];
    assert tail[0] == ' ' && tail[1..1 + |w|] == w && tail[1 + |w|..] == more;
    assert text[i + 1..i + 1 + |w|] == tail[1..1 + |w|] && text[i + 1 + |w|..] == tail[1 + |w|..];
  }

  lemma WholeWritten(text: string, ts: seq<Token>, tail: string)
    requires text == Print(Texts(ts)) + tail && AllPrintable(ts) && (tail != "" ==> !IsWordChar(tail[0]))
    ensures Written(text, 0, ts, |Print(Texts(ts))|)
  {
    var words := Texts(ts);
    assert text[0..] == text;
    PrintPrinted(text, 0, words, tail);
    assert tail != "" ==> text[|Print(words)|] == tail[0];
    PrintedWritten(text, 0, ts, words, |Print(words)|);
  }

  lemma SaysEnough(text: string, a: Ast, ts: seq<Token>, j: nat)
    requires Says(text, a, ts, j)
    ensures ParseSql(text) == Some(a)
  {
    ParserExact(text, a);
  }

  /** The canonical text of an expressible statement, followed by anything that does not continue it, parses to
      that statement. */
  lemma ParseFollowed(a: Ast, tail: string)
    requires AstOK(a) && (tail != "" ==> !IsWordChar(tail[0]))
    requires Over(a, NextToken(PrintSql(a) + tail, |PrintSql(a)|).token)
    ensures ParseSql(PrintSql(a) + tail) == Some(a)
  {
    var text := PrintSql(a) + tail;
    TokensDerive(a, NextToken(text, |PrintSql(a)|).token);
    WholeWritten(text, AstTokens(a), tail);
    SaysEnough(text, a, AstTokens(a), |PrintSql(a)|);
  }

  /** A statement may end in a semicolon, behind any blanks or none, whatever comes after it. */
  lemma ParseSemicolon(a: Ast, blanks: string, more: string)
    requires AstOK(a) && forall c <- blanks :: Blank(c)
    ensures ParseSql(PrintSql(a) + (blanks + ";" + more)) == Some(a)
  {
    SemicolonFollows(PrintSql(a), blanks, more);
    ParseFollowed(a, blanks + ";" + more);
  }

  lemma SemicolonFollows(sql: string, blanks: string, more: string)
    requires forall c <- blanks :: Blank(c)
    ensures NextToken(sql + (blanks + ";" + more), |sql|).token == SEMICOLON
    ensures !IsWordChar((blanks + ";" + more)[0])
  {
    var text, n := sql + (blanks + ";" + more), |sql|;
    assert text[n + |blanks|] == ';';
    forall x | n <= x < n + |blanks|
      ensures Blank(text[x])
    {
      assert text[x] == blanks[x - n];
    }
    SkipSpaceIs(text, n, n + |blanks|);
    assert (blanks + ";" + more)[0] == if blanks == "" then ';' else blanks[0];
  }

  /** Parse after print: the canonical text of every expressible statement parses to that statement. */
  lemma ParseAfterPrint(a: Ast)
    requires AstOK(a)
    ensures ParseSql(PrintSql(a)) == Some(a)
  {
    assert PrintSql(a) + "" == PrintSql(a);
    ParseFollowed(a, "");
  }

  /** The canonical text of a parsed statement parses to the same statement, and the statements some
      text parses to are exactly the expressible ones. */
  lemma ParserImage(a: Ast)
    ensures AstOK(a) <==> exists text :: ParseSql(text) == Some(a)
    ensures forall text :: ParseSql(text) == Some(a) ==> ParseSql(PrintSql(a)) == Some(a)
  {
    if AstOK(a) {
      ParseAfterPrint(a);
    }
    forall text | ParseSql(text) == Some(a)
      ensures AstOK(a)
    {
      ParsedStatementOK(text);
    }
  }
}
