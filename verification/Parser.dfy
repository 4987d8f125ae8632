/** Turning tokens into statements: `src/parser.c`, and the choice of statement in `process_command`. */
module Parsers {
  import opened Rows
  import opened Lexer

  datatype Expr =
    | Number(value: nat)
    | Text(text: string)
    | Truth(flag: bool)
    | ColumnRef(name: string)
    | Equal(left: Expr, right: Expr)

  datatype ColumnDef = ColumnDef(name: string, kind: ColumnType, isPrimary: bool)
  datatype Setting = Setting(column: string, value: Expr)

  datatype Ast =
    | AstSelect(isStar: bool, columns: seq<string>, table: string, where: Option<Expr>)
    | AstInsert(table: string, values: seq<Expr>)
    | AstCreate(table: string, columnDefs: seq<ColumnDef>)
    | AstUpdate(table: string, sets: seq<Setting>, condition: Expr)
    | AstDelete(table: string, where: Option<Expr>)

  // The statements SQL text can express

  predicate NameOK(w: string) { Printable(IDENTIFIER(w)) }

  predicate PrimaryOK(e: Expr) {
    match e
    case Number(n) => Printable(NUMBER(n))
    case Text(s) => Printable(STRING(s))
    case Truth(_) => true
    case ColumnRef(w) => NameOK(w)
    case Equal(_, _) => false
  }

  predicate ExprOK(e: Expr) { if e.Equal? then PrimaryOK(e.left) && PrimaryOK(e.right) else PrimaryOK(e) }

  predicate WhereOK(where: Option<Expr>) { where.Some? ==> ExprOK(where.value) }

  /** The primary-key columns of a CREATE TABLE. */
  function PrimaryKeys(defs: seq<ColumnDef>): seq<ColumnDef> {
    if defs == [] then []
    else PrimaryKeys(defs[..|defs| - 1]) + if defs[|defs| - 1].isPrimary then [defs[|defs| - 1]] else []
  }

  predicate OneIntegerKey(defs: seq<ColumnDef>) {
    |PrimaryKeys(defs)| == 1 && PrimaryKeys(defs)[0].kind.INTEGER?
  }

  predicate AstOK(a: Ast) {
    && NameOK(a.table)
    && match a
       case AstSelect(isStar, columns, _, where) =>
         |columns| <= MAX_TABLE_COLUMNS && (forall w <- columns :: NameOK(w)) && (isStar ==> columns == []) && WhereOK(where)
       case AstInsert(_, values) => |values| <= MAX_TABLE_COLUMNS && forall e <- values :: PrimaryOK(e)
       case AstCreate(_, defs) =>
         |defs| <= MAX_TABLE_COLUMNS && (forall d <- defs :: NameOK(d.name)) && OneIntegerKey(defs)
       case AstUpdate(_, sets, condition) =>
         |sets| <= MAX_TABLE_COLUMNS && (forall x <- sets :: NameOK(x.column) && PrimaryOK(x.value)) && ExprOK(condition)
       case AstDelete(_, where) => WhereOK(where)
  }

  // The token stream

  /** The parser's state: a lexer over a text of `end` characters, its cursor, and the token in front of it. */
  datatype Position = Position(lex: nat -> Lexed, end: nat, cursor: nat, current: Token)

  /** All the parser relies on: the lexer never moves back, and where it stays in place it
      returns the end of the text or a number. */
  ghost predicate Progresses(lex: nat -> Lexed, end: nat) {
    forall i: nat | i <= end ::
      i <= lex(i).cursor <= end && (lex(i).cursor == i ==> lex(i).token.EOF? || lex(i).token.NUMBER?)
  }

  type Stream = s: Position | s.cursor <= s.end && Progresses(s.lex, s.end)
    ghost witness Position((i: nat) => Lexed(EOF, i), 0, 0, EOF)

  /** `parser_advance`. */
  function Advance(s: Stream): (r: Stream)
    ensures r.lex == s.lex && r.end == s.end && s.cursor <= r.cursor
    ensures r.cursor == s.cursor ==> r.current.EOF? || r.current.NUMBER?
  {
    var next := s.lex(s.cursor);
    s.(cursor := next.cursor, current := next.token)
  }

  /** The lexer of a text, as a function of the cursor. */
  function LexerOf(text: string): nat -> Lexed {
    (i: nat) => if i <= |text| then NextToken(text, i) else Lexed(EOF, i)
  }

  lemma LexerOfProgresses(text: string)
    ensures Progresses(LexerOf(text), |text|)
  {
    forall i: nat | i <= |text|
      ensures var r := LexerOf(text)(i);
              i <= r.cursor <= |text| && (r.cursor == i ==> r.token.EOF? || r.token.NUMBER?)
    {
      LexerProgress(text, i);
    }
  }

  /** `parser_init`. */
  function Start(text: string): Stream {
    LexerOfProgresses(text);
    Advance(Position(LexerOf(text), |text|, 0, EOF))
  }

  function Left(s: Stream): nat { s.end - s.cursor }

  // What each parse function returns

  datatype Parsed<T> = Failed | Parsed(value: T, rest: Stream)

  function Primary(s: Stream): (r: Parsed<Expr>)
    ensures r.Parsed? ==> !r.value.Equal? && r.rest == Advance(s)
  {
    match s.current
    case NUMBER(n) => Parsed(Number(n), Advance(s))
    case STRING(x) => Parsed(Text(x), Advance(s))
    case IDENTIFIER(w) => Parsed(ColumnRef(w), Advance(s))
    case TRUE => Parsed(Truth(true), Advance(s))
    case FALSE => Parsed(Truth(false), Advance(s))
    case _ => Failed
  }

  function Expression(s: Stream): Parsed<Expr>
  {
    var left := Primary(s);
    if left.Failed? || !left.rest.current.EQUAL? then left
    else
      var right := Primary(Advance(left.rest));
      if right.Failed? then Failed else Parsed(Equal(left.value, right.value), right.rest)
  }

  /** The loop over a SELECT's column list. */
  function Columns(s: Stream, columns: seq<string>): (r: Parsed<seq<string>>)
    requires |columns| <= MAX_TABLE_COLUMNS
    ensures r.Parsed? ==> |r.value| <= MAX_TABLE_COLUMNS
    decreases MAX_TABLE_COLUMNS - |columns|, Left(s), if s.current.COMMA? then 1 else 0
  {
    if s.current.EOF? || s.current.FROM? then Parsed(columns, s)
    else if s.current.COMMA? then Columns(Advance(s), columns)
    else if !s.current.IDENTIFIER? || |columns| >= MAX_TABLE_COLUMNS then Failed
    else Columns(Advance(s), columns + [s.current.name])
  }

  /** The loop over an INSERT's value list. */
  function ValueList(s: Stream, values: seq<Expr>): (r: Parsed<seq<Expr>>)
    requires |values| <= MAX_TABLE_COLUMNS
    ensures r.Parsed? ==> |r.value| <= MAX_TABLE_COLUMNS
    decreases MAX_TABLE_COLUMNS - |values|, Left(s), if s.current.COMMA? then 1 else 0
  {
    if s.current.EOF? || s.current.RPAREN? then Parsed(values, s)
    else if s.current.COMMA? then ValueList(Advance(s), values)
    else if |values| >= MAX_TABLE_COLUMNS || Primary(s).Failed? then Failed
    else ValueList(Advance(s), values + [Primary(s).value])
  }

  /** The loop over an UPDATE's SET list. */
  function Settings(s: Stream, sets: seq<Setting>): (r: Parsed<seq<Setting>>)
    requires |sets| <= MAX_TABLE_COLUMNS
    ensures r.Parsed? ==> |r.value| <= MAX_TABLE_COLUMNS
    decreases MAX_TABLE_COLUMNS - |sets|, Left(s), if s.current.COMMA? then 1 else 0
  {
    if s.current.EOF? || s.current.WHERE? then Parsed(sets, s)
    else if s.current.COMMA? then Settings(Advance(s), sets)
    else if !s.current.IDENTIFIER? || |sets| >= MAX_TABLE_COLUMNS || !Advance(s).current.EQUAL? then Failed
    else
      var value := Primary(Advance(Advance(s)));
      if value.Failed? then Failed else Settings(value.rest, sets + [Setting(s.current.name, value.value)])
  }

  predicate IsKind(t: Token) { t.TYPE_TEXT? || t.TYPE_INTEGER? || t.TYPE_BOOLEAN? }

  /** `parse_column_type`. */
  function KindOf(t: Token): ColumnType
    requires IsKind(t)
  {
    if t.TYPE_TEXT? then ColumnType.TEXT else if t.TYPE_BOOLEAN? then ColumnType.BOOLEAN else ColumnType.INTEGER
  }

  /** An optional PRIMARY KEY behind a column's type. */
  function KeyMark(s: Stream): Parsed<bool> {
    if !s.current.PRIMARY? then Parsed(false, s)
    else if !Advance(s).current.KEY? then Failed
    else Parsed(true, Advance(Advance(s)))
  }

  function OneColumnDef(s: Stream): Parsed<ColumnDef> {
    var kind := Advance(s);
    if !s.current.IDENTIFIER? || !IsKind(kind.current) then Failed
    else
      var mark := KeyMark(Advance(kind));
      if mark.Failed? then Failed
      else Parsed(ColumnDef(s.current.name, KindOf(kind.current), mark.value), mark.rest)
  }

  /** The loop over a CREATE TABLE's columns. */
  function ColumnDefs(s: Stream, defs: seq<ColumnDef>): (r: Parsed<seq<ColumnDef>>)
    requires |defs| <= MAX_TABLE_COLUMNS
    ensures r.Parsed? ==> |r.value| <= MAX_TABLE_COLUMNS
    decreases MAX_TABLE_COLUMNS - |defs|
  {
    if s.current.EOF? || s.current.RPAREN? then Parsed(defs, s)
    else if (|defs| > 0 && !s.current.COMMA?) || |defs| >= MAX_TABLE_COLUMNS then Failed
    else
      var d := OneColumnDef(if |defs| > 0 then Advance(s) else s);
      if d.Failed? then Failed else ColumnDefs(d.rest, defs + [d.value])
  }

  /** An optional WHERE at the end of a statement. */
  function Where(s: Stream): Parsed<Option<Expr>>
  {
    if !s.current.WHERE? then Parsed(None, s)
    else
      var e := Expression(Advance(s));
      if e.Failed? then Failed else Parsed(Some(e.value), e.rest)
  }

  function SelectAfter(s: Stream, isStar: bool, columns: seq<string>): Parsed<Ast> {
    if !s.current.FROM? || !Advance(s).current.IDENTIFIER? then Failed
    else
      var where := Where(Advance(Advance(s)));
      if where.Failed? then Failed
      else Parsed(AstSelect(isStar, columns, Advance(s).current.name, where.value), where.rest)
  }

  function SelectStatement(s: Stream): Parsed<Ast> {
    if !s.current.SELECT? then Failed
    else if Advance(s).current.STAR? then SelectAfter(Advance(Advance(s)), true, [])
    else
      var columns := Columns(Advance(s), []);
      if columns.Failed? then Failed else SelectAfter(columns.rest, false, columns.value)
  }

  /** An INSERT from its VALUES on. */
  function InsertAfter(s: Stream, table: string): Parsed<Ast> {
    if !s.current.VALUES? || !Advance(s).current.LPAREN? then Failed
    else
      var list := ValueList(Advance(Advance(s)), []);
      if list.Failed? || !list.rest.current.RPAREN? then Failed
      else Parsed(AstInsert(table, list.value), Advance(list.rest))
  }

  function InsertStatement(s: Stream): Parsed<Ast> {
    var into := Advance(s);
    var name := Advance(into);
    if !s.current.INSERT? || !into.current.INTO? || !name.current.IDENTIFIER? then Failed
    else InsertAfter(Advance(name), name.current.name)
  }

  /** A CREATE TABLE from its column list on. */
  function CreateAfter(s: Stream, table: string): Parsed<Ast> {
    if !s.current.LPAREN? then Failed
    else
      var defs := ColumnDefs(Advance(s), []);
      if defs.Failed? || !defs.rest.current.RPAREN? || !OneIntegerKey(defs.value) then Failed
      else Parsed(AstCreate(table, defs.value), Advance(defs.rest))
  }

  function CreateStatement(s: Stream): Parsed<Ast> {
    var table := Advance(s);
    var name := Advance(table);
    if !s.current.CREATE? || !table.current.TABLE? || !name.current.IDENTIFIER? then Failed
    else CreateAfter(Advance(name), name.current.name)
  }

  function UpdateAfter(s: Stream, table: string, sets: seq<Setting>): Parsed<Ast> {
    if !s.current.WHERE? then Failed
    else
      var e := Expression(Advance(s));
      if e.Failed? then Failed else Parsed(AstUpdate(table, sets, e.value), e.rest)
  }

  function UpdateStatement(s: Stream): Parsed<Ast> {
    var name := Advance(s);
    var set_ := Advance(name);
    if !s.current.UPDATE? || !name.current.IDENTIFIER? || !set_.current.SET? then Failed
    else
      var sets := Settings(Advance(set_), []);
      if sets.Failed? then Failed else UpdateAfter(sets.rest, name.current.name, sets.value)
  }

  function DeleteStatement(s: Stream): Parsed<Ast> {
    var from := Advance(s);
    var name := Advance(from);
    if !s.current.DELETE? || !from.current.FROM? || !name.current.IDENTIFIER? then Failed
    else
      var where := Where(Advance(name));
      if where.Failed? then Failed else Parsed(AstDelete(name.current.name, where.value), where.rest)
  }

  function StatementAt(s: Stream): Parsed<Ast> {
    if s.current.SELECT? then SelectStatement(s)
    else if s.current.CREATE? then CreateStatement(s)
    else if s.current.INSERT? then InsertStatement(s)
    else if s.current.UPDATE? then UpdateStatement(s)
    else if s.current.DELETE? then DeleteStatement(s)
    else Failed
  }

  /** The statement a line of SQL text stands for. */
  function ParseSql(text: string): Option<Ast> {
    var r := StatementAt(Start(text));
    if r.Failed? then None else Some(r.value)
  }

  // The parser object

  /** What a parse method reports: nothing if the text does not fit, else the node and where it ends. */
  ghost predicate Returns<T(!new)>(node: Option<T>, here: Stream, r: Parsed<T>) {
    if r.Failed? then node.None? else node == Some(r.value) && here == r.rest
  }

  class Parser {
    const tokenizer: Tokenizer
    var current: Token
    /** An error message has been set. */
    var failed: bool

    predicate Valid()
      reads this, tokenizer
    {
      tokenizer.Valid()
    }

    ghost function Here(): Stream
      requires Valid()
      reads this, tokenizer
    {
      LexerOfProgresses(tokenizer.text);
      Position(LexerOf(tokenizer.text), |tokenizer.text|, tokenizer.cursor, current)
    }

    /** `parser_init`. */
    constructor (sql: string)
      ensures Valid() && Here() == Start(sql) && fresh(tokenizer) && !failed
    {
      tokenizer := new Tokenizer(sql);
      current := EOF;
      failed := false;
      new;
      current := tokenizer.GetNextToken();
    }

    /** `parser_advance`. */
    method Next()
      requires Valid()
      modifies this`current, tokenizer
      ensures Valid() && Here() == Advance(old(Here()))
    {
      current := tokenizer.GetNextToken();
    }

    method ParsePrimaryExpression() returns (node: Option<Expr>)
      requires Valid()
      modifies this, tokenizer
      ensures Valid() && Returns(node, Here(), Primary(old(Here()))) && (node.None? ==> failed)
    {
      match current {
        case NUMBER(n) => node := Some(Number(n));
        case STRING(x) => node := Some(Text(x));
        case IDENTIFIER(w) => node := Some(ColumnRef(w));
        case TRUE => node := Some(Truth(true));
        case FALSE => node := Some(Truth(false));
        case _ =>
          failed := true;
          return None;
      }
      Next();
    }

    method ParseExpression() returns (node: Option<Expr>)
      requires Valid()
      modifies this, tokenizer
      ensures Valid() && Returns(node, Here(), Expression(old(Here()))) && (node.None? ==> failed)
    {
      node := ParsePrimaryExpression();
      if node.None? || !current.EQUAL? {
        return;
      }
      var left := node.value;
      Next();
      node := ParsePrimaryExpression();
      if node.Some? {
        node := Some(Equal(left, node.value));
      }
    }

    /** `WHERE` and its condition, if the statement has one. */
    method ParseWhere() returns (ok: bool, where: Option<Expr>)
      requires Valid()
      modifies this, tokenizer
      ensures Valid() && Returns(if ok then Some(where) else None, Here(), Where(old(Here()))) && (!ok ==> failed)
    {
      ok, where := true, None;
      if current.WHERE? {
        Next();
        where := ParseExpression();
        ok := where.Some?;
      }
    }

    method ParseColumns() returns (columns: Option<seq<string>>)
      requires Valid()
      modifies this, tokenizer
      ensures Valid() && Returns(columns, Here(), Columns(old(Here()), [])) && (columns.None? ==> failed)
    {
      ghost var all := Columns(Here(), []);
      var list: seq<string> := [];
      while !current.EOF? && !current.FROM?
        invariant Valid() && |list| <= MAX_TABLE_COLUMNS && Columns(Here(), list) == all
        decreases MAX_TABLE_COLUMNS - |list|, Left(Here()), if current.COMMA? then 1 else 0
      {
        if current.COMMA? {
          Next();
          continue;
        }
        if !current.IDENTIFIER? || |list| >= MAX_TABLE_COLUMNS {
          failed := true;
          return None;
        }
        list := list + [current.name];
        Next();
      }
      return Some(list);
    }

    method ParseValues() returns (values: Option<seq<Expr>>)
      requires Valid()
      modifies this, tokenizer
      ensures Valid() && Returns(values, Here(), ValueList(old(Here()), [])) && (values.None? ==> failed)
    {
      ghost var all := ValueList(Here(), []);
      var list: seq<Expr> := [];
      while !current.EOF? && !current.RPAREN?
        invariant Valid() && |list| <= MAX_TABLE_COLUMNS && ValueList(Here(), list) == all
        decreases MAX_TABLE_COLUMNS - |list|, Left(Here()), if current.COMMA? then 1 else 0
      {
        if current.COMMA? {
          Next();
          continue;
        }
        if |list| >= MAX_TABLE_COLUMNS {
          failed := true;
          return None;
        }
        var value := ParsePrimaryExpression();
        if value.None? {
          return None;
        }
        list := list + [value.value];
      }
      return Some(list);
    }

    method ParseSettings() returns (sets: Option<seq<Setting>>)
      requires Valid()
      modifies this, tokenizer
      ensures Valid() && Returns(sets, Here(), Settings(old(Here()), [])) && (sets.None? ==> failed)
    {
      ghost var all := Settings(Here(), []);
      var list: seq<Setting> := [];
      while !current.EOF? && !current.WHERE?
        invariant Valid() && |list| <= MAX_TABLE_COLUMNS && Settings(Here(), list) == all
        decreases MAX_TABLE_COLUMNS - |list|, Left(Here()), if current.COMMA? then 1 else 0
      {
        if current.COMMA? {
          Next();
          continue;
        }
        if !current.IDENTIFIER? || |list| >= MAX_TABLE_COLUMNS {
          failed := true;
          return None;
        }
        var column := current.name;
        Next();
        if !current.EQUAL? {
          failed := true;
          return None;
        }
        Next();
        var value := ParsePrimaryExpression();
        if value.None? {
          return None;
        }
        list := list + [Setting(column, value.value)];
      }
      return Some(list);
    }

    method ParseColumnDef() returns (d: Option<ColumnDef>)
      requires Valid()
      modifies this, tokenizer
      ensures Valid() && Returns(d, Here(), OneColumnDef(old(Here()))) && (d.None? ==> failed)
    {
      d := None;
      if !current.IDENTIFIER? {
        failed := true;
        return;
      }
      var name := current.name;
      Next();
      if !IsKind(current) {
        failed := true;
        return;
      }
      var kind := KindOf(current);
      Next();
      var isPrimary := current.PRIMARY?;
      if isPrimary {
        Next();
        if !current.KEY? {
          failed := true;
          return;
        }
        Next();
      }
      d := Some(ColumnDef(name, kind, isPrimary));
    }

    method ParseColumnDefs() returns (defs: Option<seq<ColumnDef>>)
      requires Valid()
      modifies this, tokenizer
      ensures Valid() && Returns(defs, Here(), ColumnDefs(old(Here()), [])) && (defs.None? ==> failed)
    {
      ghost var all := ColumnDefs(Here(), []);
      var list: seq<ColumnDef> := [];
      while !current.EOF? && !current.RPAREN?
        invariant Valid() && |list| <= MAX_TABLE_COLUMNS && ColumnDefs(Here(), list) == all
        decreases MAX_TABLE_COLUMNS - |list|
      {
        if |list| > 0 {
          if !current.COMMA? {
            failed := true;
            return None;
          }
          Next();
        }
        if |list| >= MAX_TABLE_COLUMNS {
          failed := true;
          return None;
        }
        var d := ParseColumnDef();
        if d.None? {
          return None;
        }
        list := list + [d.value];
      }
      return Some(list);
    }

    /** The count of primary keys, and whether the last one is an INTEGER. */
    method CheckKeys(defs: seq<ColumnDef>) returns (ok: bool)
      ensures ok == OneIntegerKey(defs)
    {
      var i, count, isInteger := 0, 0, true;
      while i < |defs|
        invariant i <= |defs| && count == |PrimaryKeys(defs[..i])|
        invariant count > 0 ==> isInteger == PrimaryKeys(defs[..i])[count - 1].kind.INTEGER?
      {
        assert defs[..i + 1][..i] == defs[..i];
        if defs[i].isPrimary {
          count := count + 1;
          isInteger := defs[i].kind.INTEGER?;
        }
        i := i + 1;
      }
      assert defs[..i] == defs;
      return count == 1 && isInteger;
    }

    method ParseSelectStatement() returns (node: Option<Ast>)
      requires Valid()
      modifies this, tokenizer
      ensures Valid() && Returns(node, Here(), SelectStatement(old(Here()))) && (node.None? ==> failed)
    {
      node := None;
      if !current.SELECT? {
        failed := true;
        return;
      }
      Next();
      var isStar, columns := current.STAR?, [];
      if isStar {
        Next();
      } else {
        var list := ParseColumns();
        if list.None? {
          return;
        }
        columns := list.value;
      }
      node := ParseSelectAfter(isStar, columns);
    }

    /** A SELECT from its FROM on. */
    method ParseSelectAfter(isStar: bool, columns: seq<string>) returns (node: Option<Ast>)
      requires Valid()
      modifies this, tokenizer
      ensures Valid() && Returns(node, Here(), SelectAfter(old(Here()), isStar, columns)) && (node.None? ==> failed)
    {
      node := None;
      if !current.FROM? {
        failed := true;
        return;
      }
      Next();
      if !current.IDENTIFIER? {
        failed := true;
        return;
      }
      var table := current.name;
      Next();
      var ok, where := ParseWhere();
      if ok {
        node := Some(AstSelect(isStar, columns, table, where));
      }
    }

    method ParseInsertStatement() returns (node: Option<Ast>)
      requires Valid()
      modifies this, tokenizer
      ensures Valid() && Returns(node, Here(), InsertStatement(old(Here()))) && (node.None? ==> failed)
    {
      node := None;
      if !current.INSERT? {
        failed := true;
        return;
      }
      Next();
      if !current.INTO? {
        failed := true;
        return;
      }
      Next();
      if !current.IDENTIFIER? {
        failed := true;
        return;
      }
      var table := current.name;
      Next();
      if !current.VALUES? {
        failed := true;
        return;
      }
      Next();
      if !current.LPAREN? {
        failed := true;
        return;
      }
      Next();
      var values := ParseValues();
      if values.None? {
        return;
      }
      if !current.RPAREN? {
        failed := true;
        return;
      }
      Next();
      node := Some(AstInsert(table, values.value));
    }

    method ParseCreateStatement() returns (node: Option<Ast>)
      requires Valid()
      modifies this, tokenizer
      ensures Valid() && Returns(node, Here(), CreateStatement(old(Here()))) && (node.None? ==> failed)
    {
      node := None;
      if !current.CREATE? {
        failed := true;
        return;
      }
      Next();
      if !current.TABLE? {
        failed := true;
        return;
      }
      Next();
      if !current.IDENTIFIER? {
        failed := true;
        return;
      }
      var table := current.name;
      Next();
      if !current.LPAREN? {
        failed := true;
        return;
      }
      Next();
      var defs := ParseColumnDefs();
      if defs.None? {
        return;
      }
      if !current.RPAREN? {
        failed := true;
        return;
      }
      Next();
      var ok := CheckKeys(defs.value);
      if !ok {
        failed := true;
        return;
      }
      node := Some(AstCreate(table, defs.value));
    }

    method ParseUpdateStatement() returns (node: Option<Ast>)
      requires Valid()
      modifies this, tokenizer
      ensures Valid() && Returns(node, Here(), UpdateStatement(old(Here()))) && (node.None? ==> failed)
    {
      node := None;
      if !current.UPDATE? {
        failed := true;
        return;
      }
      Next();
      if !current.IDENTIFIER? {
        failed := true;
        return;
      }
      var table := current.name;
      Next();
      if !current.SET? {
        failed := true;
        return;
      }
      Next();
      var sets := ParseSettings();
      if sets.None? {
        return;
      }
      if !current.WHERE? {
        failed := true;
        return;
      }
      Next();
      var condition := ParseExpression();
      if condition.Some? {
        node := Some(AstUpdate(table, sets.value, condition.value));
      }
    }

    method ParseDeleteStatement() returns (node: Option<Ast>)
      requires Valid()
      modifies this, tokenizer
      ensures Valid() && Returns(node, Here(), DeleteStatement(old(Here()))) && (node.None? ==> failed)
    {
      node := None;
      if !current.DELETE? {
        failed := true;
        return;
      }
      Next();
      if !current.FROM? {
        failed := true;
        return;
      }
      Next();
      if !current.IDENTIFIER? {
        failed := true;
        return;
      }
      var table := current.name;
      Next();
      var ok, where := ParseWhere();
      if ok {
        node := Some(AstDelete(table, where));
      }
    }

    /** The choice of statement in `process_command`, by the first token. */
    method ParseStatement() returns (node: Option<Ast>)
      requires Valid()
      modifies this, tokenizer
      ensures Valid() && Returns(node, Here(), StatementAt(old(Here())))
    {
      if current.SELECT? {
        node := ParseSelectStatement();
      } else if current.CREATE? {
        node := ParseCreateStatement();
      } else if current.INSERT? {
        node := ParseInsertStatement();
      } else if current.UPDATE? {
        node := ParseUpdateStatement();
      } else if current.DELETE? {
        node := ParseDeleteStatement();
      } else {
        node := None;
      }
    }
  }

  /** The statement a line of text stands for, if any. Parsing always ends. */
  method Parse(sql: string) returns (node: Option<Ast>)
    ensures node == ParseSql(sql)
  {
    var parser := new Parser(sql);
    node := parser.ParseStatement();
  }
}
