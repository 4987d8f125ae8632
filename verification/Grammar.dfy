/** The grammar of SQL statements, and that the parser accepts exactly its sentences. */
module Grammars {
  import opened Rows
  import opened Lexer
  import opened Parsers

  // The tokens of a statement, given the token behind it

  function PrimaryToken(e: Expr): Token {
    match e
    case Number(n) => NUMBER(n)
    case Text(x) => STRING(x)
    case Truth(b) => if b then TRUE else FALSE
    case ColumnRef(w) => IDENTIFIER(w)
    case Equal(_, _) => INVALID
  }

  /** A primary, alone if no `=` follows, or two with `=` between them. */
  predicate IsExpr(e: Expr, ts: seq<Token>, next: Token) {
    if e.Equal? then !e.left.Equal? && !e.right.Equal? && ts == [PrimaryToken(e.left), EQUAL, PrimaryToken(e.right)]
    else ts == [PrimaryToken(e)] && !next.EQUAL?
  }

  /** Nothing, if no WHERE follows, or WHERE and an expression. */
  predicate IsWhere(where: Option<Expr>, ts: seq<Token>, next: Token) {
    if where.None? then ts == [] && !next.WHERE?
    else ts != [] && ts[0] == WHERE && IsExpr(where.value, ts[1..], next)
  }

  /** Names with commas anywhere between, before or behind them, or none. */
  predicate IsNames(columns: seq<string>, ts: seq<Token>) {
    if ts == [] then columns == []
    else if ts[0].COMMA? then IsNames(columns, ts[1..])
    else columns != [] && ts[0] == IDENTIFIER(columns[0]) && IsNames(columns[1..], ts[1..])
  }

  /** Primaries with commas anywhere. */
  predicate IsValues(values: seq<Expr>, ts: seq<Token>) {
    if ts == [] then values == []
    else if ts[0].COMMA? then IsValues(values, ts[1..])
    else values != [] && !values[0].Equal? && ts[0] == PrimaryToken(values[0]) && IsValues(values[1..], ts[1..])
  }

  /** Assignments `name = primary` with commas anywhere. */
  predicate IsSettings(sets: seq<Setting>, ts: seq<Token>) {
    if ts == [] then sets == []
    else if ts[0].COMMA? then IsSettings(sets, ts[1..])
    else
      && sets != [] && !sets[0].value.Equal? && |ts| >= 3
      && ts[..3] == [IDENTIFIER(sets[0].column), EQUAL, PrimaryToken(sets[0].value)] && IsSettings(sets[1..], ts[3..])
  }

  function KindToken(kind: ColumnType): Token {
    match kind
    case INTEGER => TYPE_INTEGER
    case TEXT => TYPE_TEXT
    case BOOLEAN => TYPE_BOOLEAN
  }

  function ColumnDefTokens(d: ColumnDef): seq<Token> {
    [IDENTIFIER(d.name), KindToken(d.kind)] + if d.isPrimary then [PRIMARY, KEY] else []
  }

  /** Column definitions with one comma between any two. */
  function ColumnDefsTokens(defs: seq<ColumnDef>, first: bool): seq<Token> {
    if defs == [] then []
    else (if first then [] else [COMMA]) + (ColumnDefTokens(defs[0]) + ColumnDefsTokens(defs[1..], false))
  }

  /** `*`, or names. */
  predicate IsSelectList(isStar: bool, columns: seq<string>, ts: seq<Token>) {
    if isStar then ts == [STAR] && columns == [] else IsNames(columns, ts) && |columns| <= MAX_TABLE_COLUMNS
  }

  /** One column is an INTEGER primary key, and no other is a primary key. */
  ghost predicate SingleKey(defs: seq<ColumnDef>) { exists i: nat :: IsSoleKey(defs, i) }

  ghost predicate IsSoleKey(defs: seq<ColumnDef>, i: nat) {
    && i < |defs| && defs[i].isPrimary && defs[i].kind.INTEGER?
    && forall j :: 0 <= j < |defs| && j != i ==> !defs[j].isPrimary
  }

  /** Counting the primary keys finds out. */
  lemma SingleKeyCounted(defs: seq<ColumnDef>)
    ensures OneIntegerKey(defs) <==> SingleKey(defs)
  {
    if OneIntegerKey(defs) {
      var i := SoleKey(defs);
    }
    forall i: nat | IsSoleKey(defs, i)
      ensures OneIntegerKey(defs)
    {
      SoleKeyCounted(defs, i);
    }
  }

  lemma {:induction false} NoKeys(defs: seq<ColumnDef>)
    ensures PrimaryKeys(defs) == [] <==> forall j :: 0 <= j < |defs| ==> !defs[j].isPrimary
  {
    if defs != [] {
      NoKeys(defs[..|defs| - 1]);
      assert forall j :: 0 <= j < |defs| - 1 ==> defs[..|defs| - 1][j] == defs[j];
    }
  }

  lemma {:induction false} SoleKey(defs: seq<ColumnDef>) returns (i: nat)
    requires OneIntegerKey(defs)
    ensures IsSoleKey(defs, i)
  {
    var front, last := defs[..|defs| - 1], |defs| - 1;
    if defs[last].isPrimary {
      i := last;
      NoKeys(front);
      assert forall j :: 0 <= j < last ==> front[j] == defs[j];
    } else {
      assert PrimaryKeys(defs) == PrimaryKeys(front);
      i := SoleKey(front);
      assert forall j :: 0 <= j < last ==> front[j] == defs[j];
    }
  }

  lemma {:induction false} SoleKeyCounted(defs: seq<ColumnDef>, i: nat)
    requires IsSoleKey(defs, i)
    ensures OneIntegerKey(defs)
  {
    var front, last := defs[..|defs| - 1], |defs| - 1;
    assert forall j :: 0 <= j < last ==> front[j] == defs[j];
    if i == last {
      NoKeys(front);
    } else {
      SoleKeyCounted(front, i);
      assert PrimaryKeys(defs) == PrimaryKeys(front);
    }
  }

  /** The tokens ts, with `next` behind them, are the statement a. */
  ghost predicate Derives(a: Ast, ts: seq<Token>, next: Token) {
    match a
    case AstSelect(isStar, columns, table, where) =>
      exists list, w :: IsSelectList(isStar, columns, list) && IsWhere(where, w, next)
                        && ts == [SELECT] + list + [FROM, IDENTIFIER(table)] + w
    case AstInsert(table, values) =>
      |values| <= MAX_TABLE_COLUMNS &&
      exists list :: IsValues(values, list) && ts == InsertHead(table) + list + [RPAREN]
    case AstCreate(table, defs) =>
      |defs| <= MAX_TABLE_COLUMNS && SingleKey(defs)
      && ts == CreateHead(table) + ColumnDefsTokens(defs, true) + [RPAREN]
    case AstUpdate(table, sets, condition) =>
      |sets| <= MAX_TABLE_COLUMNS &&
      exists list, e :: IsSettings(sets, list) && IsExpr(condition, e, next)
                        && ts == UpdateHead(table) + list + [WHERE] + e
    case AstDelete(table, where) =>
      exists w :: IsWhere(where, w, next) && ts == DeleteHead(table) + w
  }

  // Walking a stream

  /** From s the stream delivers ts and is then at r. */
  ghost predicate Goes(s: Stream, ts: seq<Token>, r: Stream)
    decreases |ts|
  {
    if ts == [] then r == s else s.current == ts[0] && Goes(Advance(s), ts[1..], r)
  }

  lemma {:induction false} GoesConcat(s: Stream, a: seq<Token>, m: Stream, b: seq<Token>, r: Stream)
    requires Goes(s, a, m) && Goes(m, b, r)
    ensures Goes(s, a + b, r)
    decreases |a|
  {
    if a == [] {
      assert a + b == b;
    } else {
      GoesConcat(Advance(s), a[1..], m, b, r);
      assert (a + b)[1..] == a[1..] + b;
    }
  }

  lemma {:induction false} GoesSplit(s: Stream, a: seq<Token>, b: seq<Token>, r: Stream) returns (m: Stream)
    requires Goes(s, a + b, r)
    ensures Goes(s, a, m) && Goes(m, b, r)
    decreases |a|
  {
    if a == [] {
      assert a + b == b;
      m := s;
    } else {
      assert (a + b)[1..] == a[1..] + b;
      m := GoesSplit(Advance(s), a[1..], b, r);
    }
  }

  lemma GoesOne(s: Stream, t: Token)
    ensures Goes(s, [t], Advance(s)) <==> s.current == t
    ensures forall r :: Goes(s, [t], r) ==> r == Advance(s)
  {
    assert [t][1..] == [];
  }

  lemma GoesFirst(s: Stream, t: Token, more: seq<Token>, r: Stream)
    ensures Goes(s, [t] + more, r) <==> s.current == t && Goes(Advance(s), more, r)
  {
    assert ([t] + more)[1..] == more;
  }

  // Expressions

  lemma PrimaryExact(s: Stream, e: Expr)
    ensures Primary(s) == Parsed(e, Advance(s)) <==> !e.Equal? && s.current == PrimaryToken(e)
    ensures Primary(s).Parsed? ==> Primary(s) == Parsed(Primary(s).value, Advance(s))
  {
  }

  lemma ExprSound(s: Stream) returns (ts: seq<Token>)
    requires Expression(s).Parsed?
    ensures Goes(s, ts, Expression(s).rest) && IsExpr(Expression(s).value, ts, Expression(s).rest.current)
  {
    var e, next := Expression(s).value, Advance(s);
    PrimaryExact(s, Primary(s).value);
    if e.Equal? {
      PrimaryExact(Advance(next), e.right);
      GoesOne(Advance(next), PrimaryToken(e.right));
      GoesFirst(next, EQUAL, [PrimaryToken(e.right)], Advance(Advance(next)));
      GoesFirst(s, PrimaryToken(e.left), [EQUAL] + [PrimaryToken(e.right)], Advance(Advance(next)));
      ts := [PrimaryToken(e.left)] + ([EQUAL] + [PrimaryToken(e.right)]);
    } else {
      GoesOne(s, PrimaryToken(e));
      ts := [PrimaryToken(e)];
    }
  }

  lemma ExprComplete(s: Stream, e: Expr, ts: seq<Token>, r: Stream)
    requires IsExpr(e, ts, r.current) && Goes(s, ts, r)
    ensures Expression(s) == Parsed(e, r)
  {
    if e.Equal? {
      var next := Advance(s);
      assert ts == [PrimaryToken(e.left)] + ([EQUAL] + [PrimaryToken(e.right)]);
      GoesFirst(s, PrimaryToken(e.left), [EQUAL] + [PrimaryToken(e.right)], r);
      GoesFirst(next, EQUAL, [PrimaryToken(e.right)], r);
      GoesOne(Advance(next), PrimaryToken(e.right));
      PrimaryExact(s, e.left);
      PrimaryExact(Advance(next), e.right);
    } else {
      GoesOne(s, PrimaryToken(e));
      PrimaryExact(s, e);
    }
  }

  lemma WhereSound(s: Stream) returns (ts: seq<Token>)
    requires Where(s).Parsed?
    ensures Goes(s, ts, Where(s).rest) && IsWhere(Where(s).value, ts, Where(s).rest.current)
  {
    ts := [];
    if s.current.WHERE? {
      var e := ExprSound(Advance(s));
      GoesFirst(s, WHERE, e, Where(s).rest);
      ts := [WHERE] + e;
      assert ts[1..] == e;
    }
  }

  lemma WhereComplete(s: Stream, where: Option<Expr>, ts: seq<Token>, r: Stream)
    requires IsWhere(where, ts, r.current) && Goes(s, ts, r)
    ensures Where(s) == Parsed(where, r)
  {
    if where.Some? {
      ExprComplete(Advance(s), where.value, ts[1..], r);
    }
  }

  // Lists

  lemma Regroup<T>(before: seq<T>, more: seq<T>)
    requires more != []
    ensures before + [more[0]] + more[1..] == before + more
  {
  }

  lemma {:induction false} NamesSound(s: Stream, before: seq<string>) returns (columns: seq<string>, ts: seq<Token>)
    requires |before| <= MAX_TABLE_COLUMNS && Columns(s, before).Parsed?
    ensures var r := Columns(s, before);
            && r.value == before + columns && IsNames(columns, ts) && Goes(s, ts, r.rest)
            && (r.rest.current.EOF? || r.rest.current.FROM?)
    decreases MAX_TABLE_COLUMNS - |before|, Left(s), if s.current.COMMA? then 1 else 0
  {
    columns, ts := [], [];
    if s.current.COMMA? {
      columns, ts := NamesSound(Advance(s), before);
      ts := Behind(s, COMMA, ts, Columns(s, before).rest);
    } else if s.current.IDENTIFIER? {
      columns, ts := NamesSound(Advance(s), before + [s.current.name]);
      ts := Behind(s, s.current, ts, Columns(s, before).rest);
      columns := [s.current.name] + columns;
    }
  }

  lemma Behind(s: Stream, t: Token, more: seq<Token>, r: Stream) returns (ts: seq<Token>)
    requires s.current == t && Goes(Advance(s), more, r)
    ensures ts != [] && ts[0] == t && ts[1..] == more && Goes(s, ts, r)
  {
    ts := [t] + more;
    GoesFirst(s, t, more, r);
  }

  lemma {:induction false} NamesComplete(s: Stream, before: seq<string>, columns: seq<string>, ts: seq<Token>, r: Stream)
    requires IsNames(columns, ts) && Goes(s, ts, r) && |before| + |columns| <= MAX_TABLE_COLUMNS
    requires r.current.EOF? || r.current.FROM?
    ensures Columns(s, before) == Parsed(before + columns, r)
    decreases |ts|
  {
    if ts == [] {
      assert before + columns == before;
    } else if ts[0].COMMA? {
      NamesComplete(Advance(s), before, columns, ts[1..], r);
    } else {
      Regroup(before, columns);
      NamesComplete(Advance(s), before + [columns[0]], columns[1..], ts[1..], r);
    }
  }

  lemma {:induction false} ValuesSound(s: Stream, before: seq<Expr>) returns (values: seq<Expr>, ts: seq<Token>)
    requires |before| <= MAX_TABLE_COLUMNS && ValueList(s, before).Parsed?
    ensures var r := ValueList(s, before);
            && r.value == before + values && IsValues(values, ts) && Goes(s, ts, r.rest)
            && (r.rest.current.EOF? || r.rest.current.RPAREN?)
    decreases MAX_TABLE_COLUMNS - |before|, Left(s), if s.current.COMMA? then 1 else 0
  {
    values, ts := [], [];
    if s.current.COMMA? {
      values, ts := ValuesSound(Advance(s), before);
      ts := Behind(s, COMMA, ts, ValueList(s, before).rest);
    } else if !s.current.EOF? && !s.current.RPAREN? {
      var e := Primary(s).value;
      PrimaryExact(s, e);
      values, ts := ValuesSound(Advance(s), before + [e]);
      ts := Behind(s, s.current, ts, ValueList(s, before).rest);
      values := [e] + values;
    }
  }

  lemma {:induction false} ValuesComplete(s: Stream, before: seq<Expr>, values: seq<Expr>, ts: seq<Token>, r: Stream)
    requires IsValues(values, ts) && Goes(s, ts, r) && |before| + |values| <= MAX_TABLE_COLUMNS
    requires r.current.EOF? || r.current.RPAREN?
    ensures ValueList(s, before) == Parsed(before + values, r)
    decreases |ts|
  {
    if ts == [] {
      assert before + values == before;
    } else if ts[0].COMMA? {
      ValuesComplete(Advance(s), before, values, ts[1..], r);
    } else {
      PrimaryExact(s, values[0]);
      Regroup(before, values);
      ValuesComplete(Advance(s), before + [values[0]], values[1..], ts[1..], r);
    }
  }

  lemma {:induction false} SettingsSound(s: Stream, before: seq<Setting>) returns (sets: seq<Setting>, ts: seq<Token>)
    requires |before| <= MAX_TABLE_COLUMNS && Settings(s, before).Parsed?
    ensures var r := Settings(s, before);
            && r.value == before + sets && IsSettings(sets, ts) && Goes(s, ts, r.rest)
            && (r.rest.current.EOF? || r.rest.current.WHERE?)
    decreases MAX_TABLE_COLUMNS - |before|, Left(s), if s.current.COMMA? then 1 else 0
  {
    sets, ts := [], [];
    if s.current.COMMA? {
      sets, ts := SettingsSound(Advance(s), before);
      ts := Behind(s, COMMA, ts, Settings(s, before).rest);
    } else if !s.current.EOF? && !s.current.WHERE? {
      var at := Advance(Advance(s));
      var x := Setting(s.current.name, Primary(at).value);
      PrimaryExact(at, x.value);
      sets, ts := SettingsSound(Advance(at), before + [x]);
      var r := Settings(s, before).rest;
      GoesFirst(at, PrimaryToken(x.value), ts, r);
      GoesFirst(Advance(s), EQUAL, [PrimaryToken(x.value)] + ts, r);
      GoesFirst(s, IDENTIFIER(x.column), [EQUAL] + ([PrimaryToken(x.value)] + ts), r);
      SettingFirst(x, sets, ts);
      ts, sets := [IDENTIFIER(x.column)] + ([EQUAL] + ([PrimaryToken(x.value)] + ts)), [x] + sets;
    }
  }

  lemma SettingFirst(x: Setting, sets: seq<Setting>, ts: seq<Token>)
    requires !x.value.Equal?
    ensures var all := [IDENTIFIER(x.column)] + ([EQUAL] + ([PrimaryToken(x.value)] + ts));
            all[..3] == [IDENTIFIER(x.column), EQUAL, PrimaryToken(x.value)] && all[3..] == ts
            && (IsSettings(sets, ts) ==> IsSettings([x] + sets, all))
  {
    var all := [IDENTIFIER(x.column)] + ([EQUAL] + ([PrimaryToken(x.value)] + ts));
    assert all[..3] == [IDENTIFIER(x.column), EQUAL, PrimaryToken(x.value)] && all[3..] == ts;
    assert ([x] + sets)[1..] == sets;
  }

  lemma {:induction false} SettingsComplete(s: Stream, before: seq<Setting>, sets: seq<Setting>, ts: seq<Token>, r: Stream)
    requires IsSettings(sets, ts) && Goes(s, ts, r) && |before| + |sets| <= MAX_TABLE_COLUMNS
    requires r.current.EOF? || r.current.WHERE?
    ensures Settings(s, before) == Parsed(before + sets, r)
    decreases |ts|
  {
    if ts == [] {
      assert before + sets == before;
    } else if ts[0].COMMA? {
      SettingsComplete(Advance(s), before, sets, ts[1..], r);
    } else {
      var x, at, more := sets[0], Advance(Advance(s)), ts[3..];
      assert ts == [IDENTIFIER(x.column)] + ([EQUAL] + ([PrimaryToken(x.value)] + more));
      GoesFirst(s, IDENTIFIER(x.column), [EQUAL] + ([PrimaryToken(x.value)] + more), r);
      GoesFirst(Advance(s), EQUAL, [PrimaryToken(x.value)] + more, r);
      GoesFirst(at, PrimaryToken(x.value), more, r);
      PrimaryExact(at, x.value);
      Regroup(before, sets);
      SettingsComplete(Advance(at), before + [x], sets[1..], more, r);
    }
  }

  lemma KeyMarkSound(s: Stream) returns (ts: seq<Token>)
    requires KeyMark(s).Parsed?
    ensures ts == if KeyMark(s).value then [PRIMARY, KEY] else []
    ensures Goes(s, ts, KeyMark(s).rest)
  {
    ts := [];
    if s.current.PRIMARY? {
      GoesOne(Advance(s), KEY);
      GoesFirst(s, PRIMARY, [KEY], Advance(Advance(s)));
      ts := [PRIMARY] + [KEY];
    }
  }

  lemma ColumnDefSound(s: Stream)
    requires OneColumnDef(s).Parsed?
    ensures Goes(s, ColumnDefTokens(OneColumnDef(s).value), OneColumnDef(s).rest)
  {
    var d, r := OneColumnDef(s).value, OneColumnDef(s).rest;
    var mark := KeyMarkSound(Advance(Advance(s)));
    GoesFirst(Advance(s), KindToken(d.kind), mark, r);
    GoesFirst(s, IDENTIFIER(d.name), [KindToken(d.kind)] + mark, r);
    assert ColumnDefTokens(d) == [IDENTIFIER(d.name)] + ([KindToken(d.kind)] + mark);
  }

  lemma ColumnDefComplete(s: Stream, d: ColumnDef, r: Stream)
    requires Goes(s, ColumnDefTokens(d), r) && !r.current.PRIMARY?
    ensures OneColumnDef(s) == Parsed(d, r)
  {
    var mark := if d.isPrimary then [PRIMARY, KEY] else [];
    assert ColumnDefTokens(d) == [IDENTIFIER(d.name)] + ([KindToken(d.kind)] + mark);
    GoesFirst(s, IDENTIFIER(d.name), [KindToken(d.kind)] + mark, r);
    GoesFirst(Advance(s), KindToken(d.kind), mark, r);
    if d.isPrimary {
      assert mark == [PRIMARY] + [KEY];
      GoesFirst(Advance(Advance(s)), PRIMARY, [KEY], r);
      GoesOne(Advance(Advance(Advance(s))), KEY);
    }
  }

  /** One round of the loop over column definitions. */
  lemma ColumnDefsNext(s: Stream, before: seq<ColumnDef>, d: Parsed<ColumnDef>)
    requires |before| < MAX_TABLE_COLUMNS && !s.current.EOF? && !s.current.RPAREN? && (before == [] || s.current.COMMA?)
    requires d == OneColumnDef(if before == [] then s else Advance(s)) && d.Parsed?
    ensures ColumnDefs(s, before) == ColumnDefs(d.rest, before + [d.value])
  {
  }

  lemma DefBefore(s: Stream, first: bool, d: Parsed<ColumnDef>, defs: seq<ColumnDef>, r: Stream)
    requires first || s.current.COMMA?
    requires d == OneColumnDef(if first then s else Advance(s)) && d.Parsed? && Goes(d.rest, ColumnDefsTokens(defs, false), r)
    ensures Goes(s, ColumnDefsTokens([d.value] + defs, first), r)
  {
    var at, more := if first then s else Advance(s), ColumnDefTokens(d.value) + ColumnDefsTokens(defs, false);
    ColumnDefSound(at);
    GoesConcat(at, ColumnDefTokens(d.value), d.rest, ColumnDefsTokens(defs, false), r);
    if first {
      assert [] + more == more;
    } else {
      GoesFirst(s, COMMA, more, r);
    }
    assert ([d.value] + defs)[1..] == defs;
  }

  lemma {:induction false} ColumnDefsSound(s: Stream, before: seq<ColumnDef>) returns (defs: seq<ColumnDef>)
    requires |before| <= MAX_TABLE_COLUMNS && ColumnDefs(s, before).Parsed?
    ensures var r := ColumnDefs(s, before);
            && r.value == before + defs && Goes(s, ColumnDefsTokens(defs, before == []), r.rest)
            && (r.rest.current.EOF? || r.rest.current.RPAREN?)
    decreases MAX_TABLE_COLUMNS - |before|
  {
    defs := [];
    if !s.current.EOF? && !s.current.RPAREN? {
      var d := OneColumnDef(if before == [] then s else Advance(s));
      ColumnDefsNext(s, before, d);
      var more := ColumnDefsSound(d.rest, before + [d.value]);
      DefBefore(s, before == [], d, more, ColumnDefs(s, before).rest);
      defs := [d.value] + more;
    }
  }

  lemma {:induction false} ColumnDefsComplete(s: Stream, before: seq<ColumnDef>, defs: seq<ColumnDef>, r: Stream)
    requires Goes(s, ColumnDefsTokens(defs, before == []), r) && |before| + |defs| <= MAX_TABLE_COLUMNS && r.current.RPAREN?
    ensures ColumnDefs(s, before) == Parsed(before + defs, r)
    decreases |defs|
  {
    if defs == [] {
      assert before + defs == before;
    } else {
      var at, m := NextDef(s, before == [], defs, r);
      ColumnDefsNext(s, before, Parsed(defs[0], m));
      Regroup(before, defs);
      ColumnDefsComplete(m, before + [defs[0]], defs[1..], r);
    }
  }

  /** The first of some column definitions, behind its comma. */
  lemma NextDef(s: Stream, first: bool, defs: seq<ColumnDef>, r: Stream) returns (at: Stream, m: Stream)
    requires defs != [] && Goes(s, ColumnDefsTokens(defs, first), r) && r.current.RPAREN?
    ensures at == if first then s else Advance(s)
    ensures s.current == if first then IDENTIFIER(defs[0].name) else COMMA
    ensures OneColumnDef(at) == Parsed(defs[0], m) && Goes(m, ColumnDefsTokens(defs[1..], false), r)
  {
    var d, more := defs[0], ColumnDefsTokens(defs[1..], false);
    at := if first then s else Advance(s);
    if first {
      assert [] + (ColumnDefTokens(d) + more) == ColumnDefTokens(d) + more;
    } else {
      GoesFirst(s, COMMA, ColumnDefTokens(d) + more, r);
    }
    m := GoesSplit(at, ColumnDefTokens(d), more, r);
    FirstOfDefs(m, defs[1..], r);
    ColumnDefComplete(at, d, m);
    FirstOfDef(at, d, m);
  }

  lemma FirstOfDefs(s: Stream, defs: seq<ColumnDef>, r: Stream)
    requires Goes(s, ColumnDefsTokens(defs, false), r)
    ensures if defs == [] then s == r else s.current.COMMA?
  {
  }

  lemma FirstOfDef(s: Stream, d: ColumnDef, r: Stream)
    requires Goes(s, ColumnDefTokens(d), r)
    ensures s.current == IDENTIFIER(d.name)
  {
  }

  // Statements

  lemma GoesTwo(s: Stream, a: Token, b: Token, more: seq<Token>, r: Stream)
    ensures Goes(s, [a, b] + more, r) <==> s.current == a && Advance(s).current == b && Goes(Advance(Advance(s)), more, r)
  {
    GoesFirst(s, a, [b] + more, r);
    GoesFirst(Advance(s), b, more, r);
    assert [a, b] + more == [a] + ([b] + more);
  }

  lemma GoesThree(s: Stream, a: Token, b: Token, c: Token, m: Stream)
    ensures var s1 := Advance(s); var s2 := Advance(s1);
            Goes(s, [a, b, c], m) <==> s.current == a && s1.current == b && s2.current == c && m == Advance(s2)
  {
    assert [a, b, c] == [a, b] + [c];
    GoesTwo(s, a, b, [c], m);
    GoesOne(Advance(Advance(s)), c);
  }

  lemma SelectSound(s: Stream) returns (ts: seq<Token>)
    requires SelectStatement(s).Parsed?
    ensures var r := SelectStatement(s);
            r.value.AstSelect? && Derives(r.value, ts, r.rest.current) && Goes(s, ts, r.rest)
  {
    var a, r := SelectStatement(s).value, SelectStatement(s).rest;
    var from, list;
    if Advance(s).current.STAR? {
      from, list := Advance(Advance(s)), [STAR];
      GoesOne(Advance(s), STAR);
    } else {
      var columns;
      columns, list := NamesSound(Advance(s), []);
      assert [] + columns == columns;
      from := Columns(Advance(s), []).rest;
    }
    var w := WhereSound(Advance(Advance(from)));
    GoesTwo(from, FROM, IDENTIFIER(a.table), w, r);
    GoesConcat(Advance(s), list, from, [FROM, IDENTIFIER(a.table)] + w, r);
    GoesFirst(s, SELECT, list + ([FROM, IDENTIFIER(a.table)] + w), r);
    ts := [SELECT] + list + [FROM, IDENTIFIER(a.table)] + w;
    assert ts == [SELECT] + (list + ([FROM, IDENTIFIER(a.table)] + w));
    assert IsSelectList(a.isStar, a.columns, list);
  }

  lemma SelectComplete(s: Stream, a: Ast, ts: seq<Token>, r: Stream)
    requires a.AstSelect? && Derives(a, ts, r.current) && Goes(s, ts, r)
    ensures s.current == SELECT && SelectStatement(s) == Parsed(a, r)
  {
    var list, w :| IsSelectList(a.isStar, a.columns, list) && IsWhere(a.where, w, r.current)
                   && ts == [SELECT] + list + [FROM, IDENTIFIER(a.table)] + w;
    assert ts == [SELECT] + (list + ([FROM, IDENTIFIER(a.table)] + w));
    GoesFirst(s, SELECT, list + ([FROM, IDENTIFIER(a.table)] + w), r);
    var from := GoesSplit(Advance(s), list, [FROM, IDENTIFIER(a.table)] + w, r);
    SelectAfterComplete(from, a.isStar, a.columns, a.table, a.where, w, r);
    if a.isStar {
      GoesOne(Advance(s), STAR);
    } else {
      NamesComplete(Advance(s), [], a.columns, list, from);
      assert [] + a.columns == a.columns;
      NamesNoStar(Advance(s), a.columns, list, from);
    }
  }

  lemma SelectAfterComplete(s: Stream, isStar: bool, columns: seq<string>, table: string, where: Option<Expr>, w: seq<Token>, r: Stream)
    requires Goes(s, [FROM, IDENTIFIER(table)] + w, r) && IsWhere(where, w, r.current)
    ensures s.current.FROM? && SelectAfter(s, isStar, columns) == Parsed(AstSelect(isStar, columns, table, where), r)
  {
    GoesTwo(s, FROM, IDENTIFIER(table), w, r);
    WhereComplete(Advance(Advance(s)), where, w, r);
  }

  lemma NamesNoStar(s: Stream, columns: seq<string>, ts: seq<Token>, r: Stream)
    requires IsNames(columns, ts) && Goes(s, ts, r) && r.current.FROM?
    ensures !s.current.STAR?
  {
  }

  lemma InsertSound(s: Stream) returns (ts: seq<Token>)
    requires InsertStatement(s).Parsed?
    ensures var r := InsertStatement(s);
            r.value.AstInsert? && Derives(r.value, ts, r.rest.current) && Goes(s, ts, r.rest)
  {
    var a, r := InsertStatement(s).value, InsertStatement(s).rest;
    var head := InsertHead(a.table);
    var at := Advance(Advance(Advance(Advance(Advance(s)))));
    InsertHeadGoes(s, a.table, at);
    var values, list := ValuesSound(at, []);
    assert [] + values == values;
    var close := ValueList(at, []).rest;
    GoesOne(close, RPAREN);
    GoesConcat(at, list, close, [RPAREN], r);
    GoesConcat(s, head, at, list + [RPAREN], r);
    ts := head + list + [RPAREN];
    assert ts == head + (list + [RPAREN]);
  }

  function InsertHead(table: string): seq<Token> { [Token.INSERT, INTO, IDENTIFIER(table), VALUES, LPAREN] }

  lemma InsertHeadGoes(s: Stream, table: string, m: Stream)
    ensures var s2 := Advance(Advance(s)); var s3 := Advance(s2);
            Goes(s, InsertHead(table), m) <==>
            && s.current == Token.INSERT && Advance(s).current == INTO && s2.current == IDENTIFIER(table)
            && s3.current == VALUES && Advance(s3).current == LPAREN && m == Advance(Advance(s3))
  {
    var more := [IDENTIFIER(table), VALUES, LPAREN];
    assert InsertHead(table) == [Token.INSERT, INTO] + more;
    GoesTwo(s, Token.INSERT, INTO, more, m);
    GoesThree(Advance(Advance(s)), IDENTIFIER(table), VALUES, LPAREN, m);
  }

  lemma InsertComplete(s: Stream, a: Ast, ts: seq<Token>, r: Stream)
    requires a.AstInsert? && Derives(a, ts, r.current) && Goes(s, ts, r)
    ensures s.current == Token.INSERT && InsertStatement(s) == Parsed(a, r)
  {
    var head := InsertHead(a.table);
    var list :| IsValues(a.values, list) && ts == head + list + [RPAREN];
    assert ts == head + (list + [RPAREN]);
    var at := GoesSplit(s, head, list + [RPAREN], r);
    InsertHeadGoes(s, a.table, at);
    InsertAfterComplete(Advance(Advance(Advance(s))), a.table, a.values, list, r);
  }

  lemma InsertAfterComplete(s: Stream, table: string, values: seq<Expr>, list: seq<Token>, r: Stream)
    requires s.current.VALUES? && Advance(s).current.LPAREN? && Goes(Advance(Advance(s)), list + [RPAREN], r)
    requires |values| <= MAX_TABLE_COLUMNS && IsValues(values, list)
    ensures InsertAfter(s, table) == Parsed(AstInsert(table, values), r)
  {
    var at := Advance(Advance(s));
    var close := GoesSplit(at, list, [RPAREN], r);
    GoesOne(close, RPAREN);
    ValuesComplete(at, [], values, list, close);
    assert [] + values == values;
  }

  lemma CreateHeadGoes(s: Stream, table: string, m: Stream)
    ensures var s1 := Advance(s); var s2 := Advance(s1);
            Goes(s, CreateHead(table), m) <==>
            && s.current == CREATE && s1.current == TABLE && s2.current == IDENTIFIER(table)
            && Advance(s2).current == LPAREN && m == Advance(Advance(s2))
  {
    var more := [TABLE, IDENTIFIER(table), LPAREN];
    assert CreateHead(table) == [CREATE] + more;
    GoesFirst(s, CREATE, more, m);
    GoesThree(Advance(s), TABLE, IDENTIFIER(table), LPAREN, m);
  }

  function CreateHead(table: string): seq<Token> { [CREATE, TABLE, IDENTIFIER(table), LPAREN] }

  lemma CreateSound(s: Stream) returns (ts: seq<Token>)
    requires CreateStatement(s).Parsed?
    ensures var r := CreateStatement(s);
            r.value.AstCreate? && Derives(r.value, ts, r.rest.current) && Goes(s, ts, r.rest)
  {
    var a, r := CreateStatement(s).value, CreateStatement(s).rest;
    var head := CreateHead(a.table);
    var at := Advance(Advance(Advance(Advance(s))));
    CreateHeadGoes(s, a.table, at);
    var defs := ColumnDefsSound(at, []);
    assert [] + defs == defs;
    SingleKeyCounted(defs);
    var list, close := ColumnDefsTokens(defs, true), ColumnDefs(at, []).rest;
    GoesOne(close, RPAREN);
    GoesConcat(at, list, close, [RPAREN], r);
    GoesConcat(s, head, at, list + [RPAREN], r);
    ts := head + list + [RPAREN];
    assert ts == head + (list + [RPAREN]);
  }

  lemma CreateComplete(s: Stream, a: Ast, ts: seq<Token>, r: Stream)
    requires a.AstCreate? && Derives(a, ts, r.current) && Goes(s, ts, r)
    ensures s.current == CREATE && CreateStatement(s) == Parsed(a, r)
  {
    var head, list := CreateHead(a.table), ColumnDefsTokens(a.columnDefs, true);
    assert ts == head + (list + [RPAREN]);
    var at := GoesSplit(s, head, list + [RPAREN], r);
    CreateHeadGoes(s, a.table, at);
    SingleKeyCounted(a.columnDefs);
    CreateAfterComplete(Advance(Advance(Advance(s))), a.table, a.columnDefs, r);
  }

  lemma CreateAfterComplete(s: Stream, table: string, defs: seq<ColumnDef>, r: Stream)
    requires s.current.LPAREN? && Goes(Advance(s), ColumnDefsTokens(defs, true) + [RPAREN], r)
    requires |defs| <= MAX_TABLE_COLUMNS && OneIntegerKey(defs)
    ensures CreateAfter(s, table) == Parsed(AstCreate(table, defs), r)
  {
    var close := GoesSplit(Advance(s), ColumnDefsTokens(defs, true), [RPAREN], r);
    GoesOne(close, RPAREN);
    ColumnDefsComplete(Advance(s), [], defs, close);
    assert [] + defs == defs;
  }

  lemma UpdateHeadGoes(s: Stream, table: string, m: Stream)
    ensures var s1 := Advance(s); var s2 := Advance(s1);
            Goes(s, UpdateHead(table), m) <==>
            s.current == UPDATE && s1.current == IDENTIFIER(table) && s2.current == SET && m == Advance(s2)
  {
    GoesThree(s, UPDATE, IDENTIFIER(table), SET, m);
  }

  function UpdateHead(table: string): seq<Token> { [UPDATE, IDENTIFIER(table), SET] }

  lemma UpdateSound(s: Stream) returns (ts: seq<Token>)
    requires UpdateStatement(s).Parsed?
    ensures var r := UpdateStatement(s);
            r.value.AstUpdate? && Derives(r.value, ts, r.rest.current) && Goes(s, ts, r.rest)
  {
    var a, r := UpdateStatement(s).value, UpdateStatement(s).rest;
    var head := UpdateHead(a.table);
    var at := Advance(Advance(Advance(s)));
    UpdateHeadGoes(s, a.table, at);
    var sets, list := SettingsSound(at, []);
    assert [] + sets == sets;
    var where := Settings(at, []).rest;
    var e := ExprSound(Advance(where));
    GoesFirst(where, WHERE, e, r);
    GoesConcat(at, list, where, [WHERE] + e, r);
    GoesConcat(s, head, at, list + ([WHERE] + e), r);
    ts := head + list + [WHERE] + e;
    assert ts == head + (list + ([WHERE] + e));
  }

  lemma UpdateComplete(s: Stream, a: Ast, ts: seq<Token>, r: Stream)
    requires a.AstUpdate? && Derives(a, ts, r.current) && Goes(s, ts, r)
    ensures s.current == UPDATE && UpdateStatement(s) == Parsed(a, r)
  {
    var head := UpdateHead(a.table);
    var list, e :| IsSettings(a.sets, list) && IsExpr(a.condition, e, r.current) && ts == head + list + [WHERE] + e;
    assert ts == head + (list + ([WHERE] + e));
    var at := GoesSplit(s, head, list + ([WHERE] + e), r);
    UpdateHeadGoes(s, a.table, at);
    var where := SettingsThenWhere(at, a.sets, list, e, r);
    ExprComplete(Advance(where), a.condition, e, r);
  }

  lemma SettingsThenWhere(s: Stream, sets: seq<Setting>, list: seq<Token>, e: seq<Token>, r: Stream) returns (where: Stream)
    requires IsSettings(sets, list) && |sets| <= MAX_TABLE_COLUMNS && Goes(s, list + ([WHERE] + e), r)
    ensures Settings(s, []) == Parsed(sets, where) && where.current.WHERE? && Goes(Advance(where), e, r)
  {
    where := GoesSplit(s, list, [WHERE] + e, r);
    GoesFirst(where, WHERE, e, r);
    SettingsComplete(s, [], sets, list, where);
    assert [] + sets == sets;
  }

  lemma DeleteHeadGoes(s: Stream, table: string, m: Stream)
    ensures var s1 := Advance(s); var s2 := Advance(s1);
            Goes(s, DeleteHead(table), m) <==>
            s.current == DELETE && s1.current == FROM && s2.current == IDENTIFIER(table) && m == Advance(s2)
  {
    GoesThree(s, DELETE, FROM, IDENTIFIER(table), m);
  }

  function DeleteHead(table: string): seq<Token> { [DELETE, FROM, IDENTIFIER(table)] }

  lemma DeleteSound(s: Stream) returns (ts: seq<Token>)
    requires DeleteStatement(s).Parsed?
    ensures var r := DeleteStatement(s);
            r.value.AstDelete? && Derives(r.value, ts, r.rest.current) && Goes(s, ts, r.rest)
  {
    var a, r := DeleteStatement(s).value, DeleteStatement(s).rest;
    var at := Advance(Advance(Advance(s)));
    DeleteHeadGoes(s, a.table, at);
    var w := WhereSound(at);
    GoesConcat(s, DeleteHead(a.table), at, w, r);
    ts := DeleteHead(a.table) + w;
  }

  lemma DeleteComplete(s: Stream, a: Ast, ts: seq<Token>, r: Stream)
    requires a.AstDelete? && Derives(a, ts, r.current) && Goes(s, ts, r)
    ensures s.current == DELETE && DeleteStatement(s) == Parsed(a, r)
  {
    var w :| IsWhere(a.where, w, r.current) && ts == DeleteHead(a.table) + w;
    var at := GoesSplit(s, DeleteHead(a.table), w, r);
    DeleteHeadGoes(s, a.table, at);
    WhereComplete(at, a.where, w, r);
  }

  lemma StatementSound(s: Stream) returns (ts: seq<Token>)
    requires StatementAt(s).Parsed?
    ensures var r := StatementAt(s); Derives(r.value, ts, r.rest.current) && Goes(s, ts, r.rest)
  {
    if s.current.SELECT? {
      ts := SelectSound(s);
    } else if s.current.CREATE? {
      ts := CreateSound(s);
    } else if s.current.INSERT? {
      ts := InsertSound(s);
    } else if s.current.UPDATE? {
      ts := UpdateSound(s);
    } else {
      ts := DeleteSound(s);
    }
  }

  lemma StatementComplete(s: Stream, a: Ast, ts: seq<Token>, r: Stream)
    requires Derives(a, ts, r.current) && Goes(s, ts, r)
    ensures StatementAt(s) == Parsed(a, r)
  {
    match a
    case AstSelect(_, _, _, _) => SelectComplete(s, a, ts, r);
    case AstInsert(_, _) => InsertComplete(s, a, ts, r);
    case AstCreate(_, _) => CreateComplete(s, a, ts, r);
    case AstUpdate(_, _, _) => UpdateComplete(s, a, ts, r);
    case AstDelete(_, _) => DeleteComplete(s, a, ts, r);
  }

  /** The parser accepts a stream as a statement, and stops behind it, if and only if the stream delivers the tokens of
      that statement and a token behind them that does not continue it. */
  lemma GrammarExact(s: Stream, a: Ast, r: Stream)
    ensures StatementAt(s) == Parsed(a, r) <==> exists ts :: Derives(a, ts, r.current) && Goes(s, ts, r)
  {
    if StatementAt(s) == Parsed(a, r) {
      var ts := StatementSound(s);
    }
    forall ts | Derives(a, ts, r.current) && Goes(s, ts, r)
      ensures StatementAt(s) == Parsed(a, r)
    {
      StatementComplete(s, a, ts, r);
    }
  }
}
