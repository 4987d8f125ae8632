/** Which characters stand for which token: the lexer against a description of SQL spelling. */
module Spellings {
  import opened Rows
  import opened Lexer

  predicate Blank(c: char) { c == ' ' || c == '\t' || c == '\r' || c == '\n' }

  /** c is the letter k or its small form. */
  predicate LetterIs(c: char, k: char) { c == k || ('a' <= c <= 'z' && c as int == k as int + 32) }

  /** w is the keyword k in any mix of cases. */
  predicate KeywordIs(w: string, k: string) { |w| == |k| && forall i :: 0 <= i < |k| ==> LetterIs(w[i], k[i]) }

  /** Keywords, numbers and names end where no word character follows. */
  predicate IsWordToken(t: Token) { IsKeyword(t) || t.NUMBER? || t.IDENTIFIER? }

  /** w is a way to write t. A number may have leading zeros and saturates; a run of no digits is 0. */
  predicate Spells(t: Token, w: string) {
    match t
    case IDENTIFIER(name) => w == name && name != "" && Printable(t)
    case NUMBER(n) => AllDigits(w) && n == Strtol(w)
    case STRING(s) => w == "'" + s + "'" && Printable(t)
    case INVALID => false
    case EOF => false
    case _ => KeywordIs(w, TokenText(t))
  }

  /** The token t is written at text[k..j]; the empty number stands before a character no token starts with. */
  predicate SpeltAt(text: string, k: nat, t: Token, j: nat) {
    && k <= j <= |text| && Spells(t, text[k..j])
    && (IsWordToken(t) && j < |text| ==> !IsWordChar(text[j]))
    && (k == j ==> j < |text| && IsUnknown(text[j]))
  }

  /** From i on, the text has blanks, if any, and then t, which ends before j. */
  ghost predicate Spelt(text: string, i: nat, t: Token, j: nat) {
    exists k: nat :: i <= k && SpeltAt(text, k, t, j) && forall x :: i <= x < k ==> Blank(text[x])
  }

  // Words

  lemma KeywordCase(w: string, k: string)
    requires forall i :: 0 <= i < |k| ==> 'A' <= k[i] <= 'Z'
    ensures KeywordIs(w, k) <==> ColumnNameIs(w, k)
  {
    assert KeywordIs(w, k) ==> forall i :: 0 <= i < |k| ==> LetterIs(w[i], k[i]);
    forall i | |w| == |k| && 0 <= i < |k|
      ensures LetterIs(w[i], k[i]) <==> Lower(w[i]) == Lower(k[i])
    {
      SameLetter(w[i], k[i]);
    }
  }

  lemma SameLetter(c: char, k: char)
    requires 'A' <= k <= 'Z'
    ensures LetterIs(c, k) <==> Lower(c) == Lower(k)
  {
    assert Lower(k) as int == k as int + 32;
    assert 'A' <= c <= 'Z' ==> Lower(c) as int == c as int + 32;
  }

  lemma KeywordUpper(t: Token)
    requires IsKeyword(t)
    ensures forall i :: 0 <= i < |TokenText(t)| ==> 'A' <= TokenText(t)[i] <= 'Z'
  {
    var w := TokenText(t);
    assert |w| <= 7;
    forall i | 0 <= i < |w|
      ensures 'A' <= w[i] <= 'Z'
    {
      if i == 0 {} else if i == 1 {} else if i == 2 {} else if i == 3 {} else if i == 4 {} else if i == 5 {} else {}
    }
  }

  lemma SameNameTo(w: string, v: string, k: string)
    requires ColumnNameIs(w, v)
    ensures ColumnNameIs(w, k) <==> ColumnNameIs(v, k)
  {
    assert forall i :: 0 <= i < |w| ==> Lower(w[i]) == Lower(v[i]);
  }

  /** The words of a keyword in any mix of cases are that keyword, and no others are. */
  lemma KeywordExact(w: string, t: Token)
    requires IsKeyword(t)
    ensures Keyword(w) == Some(t) <==> KeywordIs(w, TokenText(t))
  {
    KeywordUpper(t);
    KeywordCase(w, TokenText(t));
    if ColumnNameIs(w, TokenText(t)) {
      KeywordSpelling(t);
      SameKeyword(w, TokenText(t));
    }
    if Keyword(w) == Some(t) {
      KeywordHasName(w, t);
    }
  }

  lemma KeywordHasName(w: string, t: Token)
    requires Keyword(w) == Some(t)
    ensures IsKeyword(t) && ColumnNameIs(w, TokenText(t))
  {
    if StatementWord(w).Some? {
      StatementWordNamed(w, t);
    } else if TypeWord(w).Some? {
      TypeWordNamed(w, t);
    } else {
      ValueWordNamed(w, t);
    }
  }

  lemma StatementWordNamed(w: string, t: Token)
    requires StatementWord(w) == Some(t)
    ensures IsKeyword(t) && ColumnNameIs(w, TokenText(t))
  {
  }

  lemma TypeWordNamed(w: string, t: Token)
    requires TypeWord(w) == Some(t)
    ensures IsKeyword(t) && ColumnNameIs(w, TokenText(t))
  {
  }

  lemma ValueWordNamed(w: string, t: Token)
    requires ValueWord(w) == Some(t)
    ensures IsKeyword(t) && ColumnNameIs(w, TokenText(t))
  {
  }

  lemma SameKeyword(w: string, v: string)
    requires ColumnNameIs(w, v)
    ensures Keyword(w) == Keyword(v)
  {
    SameNameTo(w, v, "SELECT");
    SameNameTo(w, v, "FROM");
    SameNameTo(w, v, "WHERE");
    SameNameTo(w, v, "INSERT");
    SameNameTo(w, v, "INTO");
    SameNameTo(w, v, "VALUES");
    SameNameTo(w, v, "TABLE");
    SameNameTo(w, v, "CREATE");
    SameNameTo(w, v, "INTEGER");
    SameNameTo(w, v, "TEXT");
    SameNameTo(w, v, "BOOLEAN");
    SameNameTo(w, v, "PRIMARY");
    SameNameTo(w, v, "KEY");
    SameNameTo(w, v, "TRUE");
    SameNameTo(w, v, "FALSE");
    SameNameTo(w, v, "SET");
    SameNameTo(w, v, "UPDATE");
    SameNameTo(w, v, "DELETE");
  }

  lemma KeywordLetters(w: string, t: Token)
    requires IsKeyword(t) && KeywordIs(w, TokenText(t))
    ensures w != "" && AllWord(w)
  {
    KeywordUpper(t);
    KeywordWord(t);
    assert forall i :: 0 <= i < |w| ==> LetterIs(w[i], TokenText(t)[i]);
  }

  /** A run of word characters is the token it spells. */
  lemma WordSpelt(w: string, t: Token)
    requires AllWord(w) && IsWordToken(t)
    ensures WordToken(w) == t <==> Spells(t, w)
    ensures IsWordToken(WordToken(w))
  {
    if w == "" {
      assert Keyword(w).None?;
    } else if AllDigits(w) {
      DigitsAreNoKeyword(w);
    }
    if IsKeyword(t) {
      KeywordExact(w, t);
    } else if Keyword(w).Some? {
      KeywordHasName(w, Keyword(w).value);
    }
  }

  // Tokens

  lemma BlankIsSpace(c: char)
    ensures Blank(c) <==> IsSpace(c)
  {
  }

  lemma SkipSpaceIs(text: string, i: nat, k: nat)
    requires i <= k <= |text| && (forall x :: i <= x < k ==> Blank(text[x])) && (k < |text| ==> !Blank(text[k]))
    ensures SkipSpace(text, i) == k
    decreases k - i
  {
    if i < k {
      SkipSpaceIs(text, i + 1, k);
    }
  }

  /** The first character of a written token. */
  lemma FirstOf(text: string, k: nat, t: Token, j: nat)
    requires SpeltAt(text, k, t, j)
    ensures k < |text| && !Blank(text[k])
    ensures IsWordToken(t) ==> AllWord(text[k..j]) && !IsPunctuation(text[k]) && text[k] != '\''
    ensures t.STRING? ==> text[k] == '\''
    ensures !IsWordToken(t) && !t.STRING? ==> j == k + 1 && IsPunctuation(text[k]) && Punctuation(text[k]) == t
  {
    var w := text[k..j];
    if IsKeyword(t) {
      KeywordLetters(w, t);
    }
    if k < j {
      assert text[k] == w[0];
    }
  }

  /** What is written at the cursor is what the lexer returns. */
  lemma SpeltLexes(text: string, i: nat, t: Token, j: nat)
    requires Spelt(text, i, t, j)
    ensures i <= |text| && NextToken(text, i) == Lexed(t, j)
  {
    var k: nat :| i <= k && SpeltAt(text, k, t, j) && forall x :: i <= x < k ==> Blank(text[x]);
    FirstOf(text, k, t, j);
    SkipSpaceIs(text, i, k);
    if IsWordToken(t) {
      WordEndIs(text, k, j);
      WordSpelt(text[k..j], t);
    } else if t.STRING? {
      StringLexes(text, k, t.text, j);
    }
  }

  lemma StringLexes(text: string, k: nat, s: string, j: nat)
    requires k < j <= |text| && text[k..j] == "'" + s + "'" && Printable(STRING(s))
    ensures QuoteEnd(text, k + 1) == j - 1 && j - 1 < |text| && text[k + 1..j - 1] == s
  {
    var w := text[k..j];
    Quoted(w, s);
    assert text[j - 1] == w[|w| - 1];
    forall x | k + 1 <= x < j - 1
      ensures text[x] != '\''
    {
      assert text[x] == w[x - k];
    }
    QuoteEndIs(text, k + 1, j - 1);
    InnerSlice(text, k, j);
  }

  /** What the lexer returns is written at the cursor. */
  lemma LexedSpelt(text: string, i: nat)
    requires i <= |text|
    ensures var r := NextToken(text, i); !r.token.EOF? && !r.token.INVALID? ==> Spelt(text, i, r.token, r.cursor)
  {
    var r, k := NextToken(text, i), SkipSpace(text, i);
    if !r.token.EOF? && !r.token.INVALID? {
      LexedSpeltAt(text, k, r);
      assert SpeltAt(text, k, r.token, r.cursor);
    }
  }

  lemma LexedSpeltAt(text: string, k: nat, r: Lexed)
    requires k < |text| && !IsSpace(text[k]) && r == NextToken(text, k) && !r.token.INVALID?
    ensures SpeltAt(text, k, r.token, r.cursor)
  {
    if IsPunctuation(text[k]) {
      assert text[k..k + 1] == [text[k]];
    } else if text[k] == '\'' {
      var e := QuoteEnd(text, k + 1);
      assert text[k..e + 1] == "'" + text[k + 1..e] + "'";
    } else {
      WordSpeltAt(text, k, WordEnd(text, k));
    }
  }

  lemma WordSpeltAt(text: string, k: nat, j: nat)
    requires k < |text| && !IsSpace(text[k]) && !IsPunctuation(text[k]) && text[k] != '\'' && j == WordEnd(text, k)
    ensures SpeltAt(text, k, WordToken(text[k..j]), j) && IsWordToken(WordToken(text[k..j]))
  {
    WordSpelt(text[k..j], TRUE);
    WordSpelt(text[k..j], WordToken(text[k..j]));
  }

  /** From i on, the text has blanks, if any, and then a quote that is never closed. */
  ghost predicate Unclosed(text: string, i: nat) {
    exists k: nat :: i <= k && QuoteOpens(text, k) && forall x :: i <= x < k ==> Blank(text[x])
  }

  ghost predicate QuoteOpens(text: string, k: nat) {
    k < |text| && text[k] == '\'' && forall x :: k < x < |text| ==> text[x] != '\''
  }

  lemma EndExact(text: string, i: nat)
    requires i <= |text|
    ensures NextToken(text, i).token.EOF? <==> forall x :: i <= x < |text| ==> Blank(text[x])
  {
    var k := SkipSpace(text, i);
    if k < |text| {
      assert !Blank(text[k]);
      LexedSpelt(text, i);
    }
  }

  lemma UnclosedExact(text: string, i: nat)
    requires i <= |text|
    ensures NextToken(text, i).token.INVALID? <==> Unclosed(text, i)
  {
    if Unclosed(text, i) {
      var k: nat :| i <= k && QuoteOpens(text, k) && forall x :: i <= x < k ==> Blank(text[x]);
      SkipSpaceIs(text, i, k);
    }
    if NextToken(text, i).token.INVALID? {
      InvalidIsQuote(text, i);
      assert QuoteOpens(text, SkipSpace(text, i));
    }
  }

  lemma InvalidIsQuote(text: string, i: nat)
    requires i <= |text| && NextToken(text, i).token.INVALID?
    ensures QuoteOpens(text, SkipSpace(text, i))
  {
    var k := SkipSpace(text, i);
    if !IsPunctuation(text[k]) && text[k] != '\'' {
      WordSpelt(text[k..WordEnd(text, k)], TRUE);
    }
  }

  /** The lexer returns a token, and ends behind it, if and only if that is what the text says there; what it calls the
      end of the text is nothing but blanks, and what it calls invalid a quote that is never closed. */
  lemma LexerExact(text: string, i: nat, t: Token, j: nat)
    requires i <= |text|
    ensures !t.EOF? && !t.INVALID? ==> (NextToken(text, i) == Lexed(t, j) <==> Spelt(text, i, t, j))
    ensures NextToken(text, i).token.EOF? <==> forall x :: i <= x < |text| ==> Blank(text[x])
    ensures NextToken(text, i).token.INVALID? <==> Unclosed(text, i)
  {
    LexedSpelt(text, i);
    if Spelt(text, i, t, j) {
      SpeltLexes(text, i, t, j);
    }
    EndExact(text, i);
    UnclosedExact(text, i);
  }

  // Printed tokens

  lemma TextSpells(t: Token)
    requires Printable(t)
    ensures TokenText(t) != "" && Spells(t, TokenText(t))
  {
    if t.NUMBER? {
      DecimalRoundTrip(t.value);
    } else if IsKeyword(t) {
      KeywordWord(t);
    }
  }

  lemma PrintedTokenSpelt(text: string, i: nat, t: Token, m: nat)
    requires i < m <= |text| && text[i] == ' ' && text[i + 1..m] == TokenText(t) && Printable(t)
    requires m < |text| ==> !IsWordChar(text[m])
    ensures Spelt(text, i, t, m)
  {
    TextSpells(t);
    assert SpeltAt(text, i + 1, t, m);
  }

  /** A printable token, printed behind a blank, lexes back to itself. */
  lemma PrintedTokenLexes(text: string, i: nat, t: Token, j: nat)
    requires Printable(t) && i < j <= |text| && text[i] == ' ' && text[i + 1..j] == TokenText(t)
    requires j < |text| ==> !IsWordChar(text[j])
    ensures NextToken(text, i) == Lexed(t, j)
  {
    PrintedTokenSpelt(text, i, t, j);
    SpeltLexes(text, i, t, j);
  }
}
