/** Turning SQL text into tokens: `src/lexer.c`. */
module Lexer {
  import opened Rows

  /** The largest int64, where `strtol` saturates. */
  const LONG_MAX: nat := 0x7FFF_FFFF_FFFF_FFFF

  datatype Token =
    | SELECT | FROM | WHERE | INSERT | INTO | VALUES | TABLE | CREATE | TYPE_INTEGER | TYPE_TEXT | TYPE_BOOLEAN
    | PRIMARY | KEY | TRUE | FALSE | SET | UPDATE | DELETE
    | IDENTIFIER(name: string) | NUMBER(value: nat) | STRING(text: string) | INVALID
    | COMMA | SEMICOLON | LPAREN | RPAREN | EQUAL | STAR | EOF

  // Characters

  predicate IsSpace(c: char) { c == ' ' || c == '\t' || c == '\r' || c == '\n' }

  predicate IsDigit(c: char) { '0' <= c <= '9' }

  /** `isalnum(c) || c == '_'` in the C locale. */
  predicate IsWordChar(c: char) { IsDigit(c) || 'a' <= c <= 'z' || 'A' <= c <= 'Z' || c == '_' }

  predicate IsPunctuation(c: char) { c == ',' || c == ';' || c == '(' || c == ')' || c == '=' || c == '*' }

  predicate AllDigits(w: string) { forall i :: 0 <= i < |w| ==> IsDigit(w[i]) }

  predicate AllWord(w: string) { forall i :: 0 <= i < |w| ==> IsWordChar(w[i]) }

  // The end of a run of characters, from i on

  function SkipSpace(text: string, i: nat): (j: nat)
    requires i <= |text|
    ensures i <= j <= |text| && (forall k :: i <= k < j ==> IsSpace(text[k])) && (j < |text| ==> !IsSpace(text[j]))
    decreases |text| - i
  {
    if i < |text| && IsSpace(text[i]) then SkipSpace(text, i + 1) else i
  }

  function WordEnd(text: string, i: nat): (j: nat)
    requires i <= |text|
    ensures i <= j <= |text| && AllWord(text[i..j]) && (j < |text| ==> !IsWordChar(text[j]))
    decreases |text| - i
  {
    if i < |text| && IsWordChar(text[i]) then
      assert forall j :: i < j <= |text| ==> text[i..j] == [text[i]] + text[i + 1..j];
      WordEnd(text, i + 1)
    else i
  }

  /** The closing quote, or the end of the text. */
  function QuoteEnd(text: string, i: nat): (j: nat)
    requires i <= |text|
    ensures i <= j <= |text| && (forall k :: i <= k < j ==> text[k] != '\'') && (j < |text| ==> text[j] == '\'')
    decreases |text| - i
  {
    if i < |text| && text[i] != '\'' then QuoteEnd(text, i + 1) else i
  }

  // Words

  function DigitValue(c: char): nat { if IsDigit(c) then (c - '0') as nat else 0 }

  function DecimalValue(w: string): nat {
    if w == "" then 0 else 10 * DecimalValue(w[..|w| - 1]) + DigitValue(w[|w| - 1])
  }

  /** `strtol` of a run of digits; 0 for the empty run. */
  function Strtol(w: string): (n: nat)
    ensures n <= LONG_MAX
  {
    if DecimalValue(w) <= LONG_MAX then DecimalValue(w) else LONG_MAX
  }

  /** The keyword a word spells, in any case. */
  function Keyword(w: string): Option<Token> {
    if StatementWord(w).Some? then StatementWord(w)
    else if TypeWord(w).Some? then TypeWord(w)
    else ValueWord(w)
  }

  function StatementWord(w: string): Option<Token> {
    if ColumnNameIs(w, "SELECT") then Some(SELECT)
    else if ColumnNameIs(w, "FROM") then Some(FROM)
    else if ColumnNameIs(w, "WHERE") then Some(WHERE)
    else if ColumnNameIs(w, "INSERT") then Some(INSERT)
    else if ColumnNameIs(w, "INTO") then Some(INTO)
    else if ColumnNameIs(w, "VALUES") then Some(VALUES)
    else None
  }

  function TypeWord(w: string): Option<Token> {
    if ColumnNameIs(w, "TABLE") then Some(TABLE)
    else if ColumnNameIs(w, "CREATE") then Some(CREATE)
    else if ColumnNameIs(w, "INTEGER") then Some(TYPE_INTEGER)
    else if ColumnNameIs(w, "TEXT") then Some(TYPE_TEXT)
    else if ColumnNameIs(w, "BOOLEAN") then Some(TYPE_BOOLEAN)
    else if ColumnNameIs(w, "PRIMARY") then Some(PRIMARY)
    else None
  }

  function ValueWord(w: string): Option<Token> {
    if ColumnNameIs(w, "KEY") then Some(KEY)
    else if ColumnNameIs(w, "TRUE") then Some(TRUE)
    else if ColumnNameIs(w, "FALSE") then Some(FALSE)
    else if ColumnNameIs(w, "SET") then Some(SET)
    else if ColumnNameIs(w, "UPDATE") then Some(UPDATE)
    else if ColumnNameIs(w, "DELETE") then Some(DELETE)
    else None
  }

  function WordToken(w: string): Token {
    if Keyword(w).Some? then Keyword(w).value
    else if AllDigits(w) then NUMBER(Strtol(w))
    else IDENTIFIER(w)
  }

  function Punctuation(c: char): Token
    requires IsPunctuation(c)
  {
    if c == ',' then COMMA else if c == ';' then SEMICOLON else if c == '(' then LPAREN
    else if c == ')' then RPAREN else if c == '=' then EQUAL else STAR
  }

  datatype Lexed = Lexed(token: Token, cursor: nat)

  /** The token at the cursor and the cursor behind it. */
  function NextToken(text: string, cursor: nat): (r: Lexed)
    requires cursor <= |text|
    ensures cursor <= r.cursor <= |text|
  {
    var i := SkipSpace(text, cursor);
    if i == |text| then Lexed(EOF, i)
    else if IsPunctuation(text[i]) then Lexed(Punctuation(text[i]), i + 1)
    else if text[i] == '\'' then
      var j := QuoteEnd(text, i + 1);
      if j == |text| then Lexed(INVALID, j) else Lexed(STRING(text[i + 1..j]), j + 1)
    else
      var j := WordEnd(text, i);
      Lexed(WordToken(text[i..j]), j)
  }

  class Tokenizer {
    const text: string
    var cursor: nat

    predicate Valid()
      reads this
    {
      cursor <= |text|
    }

    constructor (sql: string)
      ensures Valid() && text == sql && cursor == 0
    {
      text, cursor := sql, 0;
    }

    /** `get_next_token`. */
    method GetNextToken() returns (token: Token)
      requires Valid()
      modifies this
      ensures Valid() && Lexed(token, cursor) == NextToken(text, old(cursor))
    {
      while cursor < |text| && IsSpace(text[cursor])
        invariant Valid() && SkipSpace(text, cursor) == SkipSpace(text, old(cursor))
      {
        cursor := cursor + 1;
      }
      if cursor == |text| {
        return EOF;
      }
      if IsPunctuation(text[cursor]) {
        token := Punctuation(text[cursor]);
        cursor := cursor + 1;
        return;
      }
      if text[cursor] == '\'' {
        token := GetString();
      } else {
        token := GetWord();
      }
    }

    /** The first case: a string literal, or an unterminated one. */
    method GetString() returns (token: Token)
      requires Valid() && cursor < |text| && text[cursor] == '\''
      modifies this
      ensures Valid() && Lexed(token, cursor) == NextToken(text, old(cursor))
    {
      var c := cursor + 1;
      while c < |text| && text[c] != '\''
        invariant cursor < c <= |text| && QuoteEnd(text, c) == QuoteEnd(text, cursor + 1)
      {
        c := c + 1;
      }
      if c == |text| {
        cursor := c;
        return INVALID;
      }
      token := STRING(text[cursor + 1..c]);
      cursor := c + 1;
    }

    /** The second case: an identifier, a keyword or a number. */
    method GetWord() returns (token: Token)
      requires Valid() && cursor < |text| && !IsSpace(text[cursor]) && !IsPunctuation(text[cursor]) && text[cursor] != '\''
      modifies this
      ensures Valid() && Lexed(token, cursor) == NextToken(text, old(cursor))
    {
      var c := cursor;
      while c < |text| && IsWordChar(text[c])
        invariant cursor <= c <= |text| && WordEnd(text, c) == WordEnd(text, cursor)
      {
        c := c + 1;
      }
      token := WordToken(text[cursor..c]);
      cursor := c;
    }
  }

  // Progress

  /** A character no token starts with. */
  predicate IsUnknown(c: char) { !IsSpace(c) && !IsPunctuation(c) && c != '\'' && !IsWordChar(c) }

  /** The lexer stays in place exactly at the end of the text and on a character it does not know,
      where it returns the number 0 for the empty run of digits. */
  lemma LexerProgress(text: string, i: nat)
    requires i <= |text|
    ensures NextToken(text, i).cursor == i <==> i == |text| || IsUnknown(text[i])
    ensures NextToken(text, i).cursor == i < |text| ==> NextToken(text, i).token == NUMBER(0)
    ensures i == |text| ==> NextToken(text, i).token == EOF
  {
    if i < |text| && IsUnknown(text[i]) {
      assert text[i..i] == "";
    }
  }

  // Printing tokens

  function Digit(d: nat): (c: char)
    requires d < 10
    ensures IsDigit(c) && DigitValue(c) == d
  {
    '0' + d as char
  }

  function Decimal(n: nat): (w: string)
    ensures w != "" && AllDigits(w)
  {
    if n < 10 then [Digit(n)] else Decimal(n / 10) + [Digit(n % 10)]
  }

  lemma {:induction false} DecimalRoundTrip(n: nat)
    ensures DecimalValue(Decimal(n)) == n
  {
    if n >= 10 {
      DecimalRoundTrip(n / 10);
      var w := Decimal(n);
      assert w[..|w| - 1] == Decimal(n / 10);
    } else {
      assert [Digit(n)][..0] == "";
    }
  }

  function TokenText(t: Token): string {
    match t
    case SELECT => "SELECT" case FROM => "FROM" case WHERE => "WHERE" case INSERT => "INSERT" case INTO => "INTO"
    case VALUES => "VALUES" case TABLE => "TABLE" case CREATE => "CREATE" case TYPE_INTEGER => "INTEGER"
    case TYPE_TEXT => "TEXT" case TYPE_BOOLEAN => "BOOLEAN" case PRIMARY => "PRIMARY" case KEY => "KEY"
    case TRUE => "TRUE" case FALSE => "FALSE" case SET => "SET" case UPDATE => "UPDATE" case DELETE => "DELETE"
    case IDENTIFIER(name) => name
    case NUMBER(n) => Decimal(n)
    case STRING(s) => "'" + s + "'"
    case COMMA => "," case SEMICOLON => ";" case LPAREN => "(" case RPAREN => ")" case EQUAL => "=" case STAR => "*"
    case INVALID => "" case EOF => ""
  }

  /** Tokens that some text stands for. */
  predicate Printable(t: Token) {
    match t
    case IDENTIFIER(w) => AllWord(w) && Keyword(w).None? && !AllDigits(w)
    case NUMBER(n) => n <= LONG_MAX
    case STRING(s) => forall i :: 0 <= i < |s| ==> s[i] != '\''
    case INVALID => false
    case EOF => false
    case _ => true
  }

  predicate IsKeyword(t: Token) {
    t.SELECT? || t.FROM? || t.WHERE? || t.INSERT? || t.INTO? || t.VALUES? || t.TABLE? || t.CREATE?
    || t.TYPE_INTEGER? || t.TYPE_TEXT? || t.TYPE_BOOLEAN? || t.PRIMARY? || t.KEY? || t.TRUE? || t.FALSE?
    || t.SET? || t.UPDATE? || t.DELETE?
  }

  lemma Differ(w: string, k: string, at: nat)
    ensures at < |w| == |k| && Lower(w[at]) != Lower(k[at]) ==> !ColumnNameIs(w, k)
  {
  }

  lemma KeywordWord(t: Token)
    requires IsKeyword(t)
    ensures TokenText(t) != "" && AllWord(TokenText(t))
  {
    var w := TokenText(t);
    assert |w| <= 7;
    forall i | 0 <= i < |w|
      ensures IsWordChar(w[i])
    {
      if i == 0 {} else if i == 1 {} else if i == 2 {} else if i == 3 {} else if i == 4 {} else if i == 5 {} else {}
    }
  }

  lemma KeywordSpelling(t: Token)
    requires IsKeyword(t)
    ensures Keyword(TokenText(t)) == Some(t)
  {
    if |TokenText(t)| == 6 {
      SixLetterSpelling(t);
    } else {
      OtherSpelling(t);
    }
  }

  lemma SixLetterSpelling(t: Token)
    requires IsKeyword(t) && |TokenText(t)| == 6
    ensures Keyword(TokenText(t)) == Some(t)
  {
    var w := TokenText(t);
    Differ(w, "SELECT", 0);
    Differ(w, "INSERT", 0);
    if t.CREATE? || t.UPDATE? || t.DELETE? {
      Differ(w, "VALUES", 0);
      LaterSixLetterSpelling(t);
    }
  }

  lemma LaterSixLetterSpelling(t: Token)
    requires t.CREATE? || t.UPDATE? || t.DELETE?
    requires !ColumnNameIs(TokenText(t), "SELECT") && !ColumnNameIs(TokenText(t), "INSERT") && !ColumnNameIs(TokenText(t), "VALUES")
    ensures Keyword(TokenText(t)) == Some(t)
  {
    if t.CREATE? {
      ExceptSix("CREATE");
      assert ColumnNameIs("CREATE", "CREATE");
    } else {
      var w := TokenText(t);
      ExceptSix(w);
      Differ(w, "CREATE", 0);
      assert t.UPDATE? ==> ColumnNameIs(w, "UPDATE");
      Differ(w, "UPDATE", 0);
      assert t.DELETE? ==> ColumnNameIs(w, "DELETE");
    }
  }

  /** Among words of six letters only these keywords come into question. */
  lemma ExceptSix(w: string)
    requires |w| == 6 && !ColumnNameIs(w, "SELECT") && !ColumnNameIs(w, "INSERT") && !ColumnNameIs(w, "VALUES")
    ensures Keyword(w) == if ColumnNameIs(w, "CREATE") then Some(CREATE) else if ColumnNameIs(w, "UPDATE") then Some(UPDATE)
                          else if ColumnNameIs(w, "DELETE") then Some(DELETE) else None
  {
  }

  lemma OtherSpelling(t: Token)
    requires IsKeyword(t) && |TokenText(t)| != 6
    ensures Keyword(TokenText(t)) == Some(t)
  {
    var w := TokenText(t);
    Differ(w, "FROM", 0);
    Differ(w, "WHERE", 0);
    Differ(w, "INTO", 0);
    Differ(w, "TABLE", 0);
    Differ(w, "INTEGER", 0);
    Differ(w, "TEXT", 0);
    Differ(w, "TEXT", 1);
    Differ(w, "BOOLEAN", 0);
    Differ(w, "KEY", 0);
  }

  // Lexing what was printed

  lemma {:induction false} WordEndIs(text: string, i: nat, j: nat)
    requires i <= j <= |text| && AllWord(text[i..j]) && (j < |text| ==> !IsWordChar(text[j]))
    ensures WordEnd(text, i) == j
    decreases j - i
  {
    if i < j {
      var w := text[i..j];
      assert IsWordChar(w[0]) && text[i + 1..j] == w[1..];
      WordEndIs(text, i + 1, j);
    }
  }

  lemma QuoteEndIs(text: string, i: nat, j: nat)
    requires i <= j < |text| && text[j] == '\'' && forall k :: i <= k < j ==> text[k] != '\''
    ensures QuoteEnd(text, i) == j
  {
  }

  lemma DigitsAreNoKeyword(w: string)
    requires w != "" && AllDigits(w)
    ensures Keyword(w).None? && AllWord(w)
  {
    assert IsDigit(w[0]) && Lower(w[0]) == w[0];
  }

  lemma InnerSlice(s: string, a: nat, b: nat)
    requires a + 2 <= b <= |s|
    ensures s[a..b][1..b - a - 1] == s[a + 1..b - 1]
  {
    var w, n := s[a..b], b - a - 1;
    assert w[..n] == s[a..b - 1];
    assert w[1..n] == w[..n][1..] == s[a..b - 1][1..] == s[a + 1..b - 1];
  }

  lemma Quoted(w: string, s: string)
    requires w == "'" + s + "'"
    ensures |w| == |s| + 2 && w[0] == '\'' && w[|w| - 1] == '\'' && w[1..|w| - 1] == s
    ensures forall k :: 1 <= k <= |s| ==> w[k] == s[k - 1]
  {
  }

  /** Every token the lexer returns is printable, except for the two that end a text. */
  lemma LexedTokensPrintable(text: string, i: nat)
    requires i <= |text|
    ensures var t := NextToken(text, i).token; t.EOF? || t.INVALID? || Printable(t)
  {
    var j := SkipSpace(text, i);
    if j < |text| && !IsPunctuation(text[j]) && text[j] != '\'' {
      WordTokenPrintable(text[j..WordEnd(text, j)]);
    }
  }

  lemma WordTokenPrintable(w: string)
    requires AllWord(w)
    ensures Printable(WordToken(w))
  {
  }
}
