/**
 What a token's text looks like, and that such a text followed by a space is read as that token
 wherever it stands.
 */
module SqlTokens {
  import opened Options
  import opened SqlCharacters
  import opened SqlLexer
  import opened SqlTokenizer
  import opened Texts

  // ---------------------------------------------------------------- the shapes of tokens

  ghost predicate IsWord(t: string) {
    t != "" && !IsInitialNumber(t[0]) && forall k :: 0 <= k < |t| ==> IsKeywordCharacter(t[k])
  }

  ghost predicate IsNumber(t: string) {
    && t != "" && IsInitialNumber(t[0]) && IsInitialNumber(t[|t| - 1])
    && forall k :: 0 < k < |t| ==> NumberContinues(t, k)
  }

  ghost predicate IsOperator(t: string) {
    && t != "" && (forall k :: 0 <= k < |t| ==> IsOperatorCharacter(t[k]))
    && (|t| >= 2 ==> (t[0], t[1]) !in {(':', ':'), (':', '='), ('-', '>'), ('*', '*'), ('/', '/'), ('/', '*')})
    && (HasSpecialOperatorCharacter(t, 0, |t|) || t[|t| - 1] != '+')
  }

  ghost predicate IsFixed(t: string) {
    t in {"->>", "::", ":=", "->", "**", "//"} || (|t| == 1 && (IsSingleByteOperator(t[0]) || t == "+"))
  }

  /** A literal whose quote opens at index `open` and closes at the end of the text. */
  ghost predicate IsQuoted(t: string, open: nat, quote: char) {
    open < |t| && t[open] == quote && CloseQuote(t, open + 1, quote) == Some(|t|)
  }

  ghost predicate IsLiteral(t: string) {
    IsQuoted(t, 0, '"') || IsQuoted(t, 0, '\'') || (IsQuoted(t, 1, '\'') && IsStringPrefix(t[0]))
  }

  ghost predicate IsToken(t: string) {
    IsWord(t) || IsNumber(t) || IsOperator(t) || IsFixed(t) || IsLiteral(t)
  }

  // ---------------------------------------------------------------- reading a token

  /** The text `t` and a space stand at position `i`. */
  ghost predicate Placed(sql: string, i: nat, t: string) {
    && i + |t| < |sql| && sql[i + |t|] == ' ' && sql[i..i + |t|] == t
    && forall k :: 0 <= k < |t| ==> sql[i + k] == t[k]
  }

  lemma PlacedWhere(sql: string, i: nat, t: string)
    requires Has(sql, i, t + " ")
    ensures Placed(sql, i, t)
  {
    HasParts(sql, i, t, " ");
    HasChar(sql, i + |t|, " ", 0);
    forall k | 0 <= k < |t|
      ensures sql[i + k] == t[k]
    {
      HasChar(sql, i, t, k);
    }
  }

  /** From position `i` the first token read is `t`, and reading goes on after the space. */
  ghost predicate ReadsAs(sql: string, i: nat, lastPos: nat, t: string)
    requires i + |t| < |sql|
  {
    var next := i + |t| + 1;
    var here, later := Lex(sql, i, lastPos), Lex(sql, next, next);
    && |here.lexemes| > 0 && here.lexemes[0].Word? && here.lexemes[0].token.text == t
    && here.lexemes[1..] == later.lexemes && here.state == later.state && here.lastPos == later.lastPos
  }

  /** After the token comes the space, which is skipped. */
  lemma ReadsAsOne(sql: string, i: nat, lastPos: nat, t: string, offset: nat, after: nat)
    requires Placed(sql, i, t)
    requires Lex(sql, i, lastPos) == Then([Word(Token(t, offset), i, i + |t|)], Lex(sql, i + |t|, after))
    ensures ReadsAs(sql, i, lastPos, t)
  {
    SpaceIsSkipped(sql, i + |t|, after);
    hide Lex;
    var rest := Lex(sql, i + |t|, after).lexemes;
    assert ([Word(Token(t, offset), i, i + |t|)] + rest)[1..] == rest;
  }

  lemma SpaceIsSkipped(sql: string, i: nat, lastPos: nat)
    requires i < |sql| && sql[i] == ' '
    ensures Lex(sql, i, lastPos) == Lex(sql, i + 1, i + 1)
  {
  }

  // words

  lemma {:induction false} WordEndIs(sql: string, i: nat, end: nat)
    requires i <= end < |sql| && !IsKeywordCharacter(sql[end])
    requires forall j :: i <= j < end ==> IsKeywordCharacter(sql[j])
    ensures WordEnd(sql, i) == end
    decreases end - i
  {
    if i < end {
      WordEndIs(sql, i + 1, end);
    }
  }

  lemma ReadsWord(sql: string, i: nat, lastPos: nat, t: string)
    requires Placed(sql, i, t) && IsWord(t)
    ensures ReadsAs(sql, i, lastPos, t)
  {
    hide AfterQuote, AfterComment, AfterNumber, AfterOperator, LexDollar, ReadsAs;
    assert sql[i] == t[0];
    assert |t| > 1 ==> sql[i + 1] == t[1];
    assert forall j :: i <= j < i + |t| ==> sql[j] == t[j - i];
    WordEndIs(sql, i + 1, i + |t|);
    assert Lex(sql, i, lastPos) == AfterWord(sql, i, i + |t|);
    ReadsAsOne(sql, i, lastPos, t, i, i + |t|);
  }

  // numbers

  lemma {:induction false} NumberEndIs(sql: string, i: nat, end: nat)
    requires 0 < i <= end < |sql| && !NumberContinues(sql, end)
    requires forall j :: i <= j < end ==> NumberContinues(sql, j)
    ensures NumberEnd(sql, i) == end
    decreases end - i
  {
    hide NumberContinues;
    if i < end {
      NumberEndIs(sql, i + 1, end);
    }
  }

  lemma NumberPlaced(sql: string, i: nat, t: string, k: nat)
    requires Placed(sql, i, t) && 0 < k < |t| && NumberContinues(t, k)
    ensures NumberContinues(sql, i + k)
  {
    assert sql[i + k] == t[k] && sql[i + (k - 1)] == t[k - 1];
    if k + 1 < |t| {
      assert sql[i + (k + 1)] == t[k + 1];
    }
  }

  lemma ReadsNumber(sql: string, i: nat, lastPos: nat, t: string)
    requires Placed(sql, i, t) && IsNumber(t)
    ensures ReadsAs(sql, i, lastPos, t)
  {
    hide AfterQuote, AfterComment, AfterWord, AfterOperator, LexDollar, ReadsAs, NumberContinues, Backtrack;
    assert sql[i] == t[0] && sql[i + (|t| - 1)] == t[|t| - 1];
    forall j | i + 1 <= j < i + |t|
      ensures NumberContinues(sql, j)
    {
      NumberPlaced(sql, i, t, j - i);
    }
    NumberStopsAtSpace(sql, i + |t|);
    NumberEndIs(sql, i + 1, i + |t|);
    BacktrackStays(sql, i, i + |t|);
    assert Lex(sql, i, lastPos) == AfterNumber(sql, i, i + |t|);
    ReadsAsOne(sql, i, lastPos, t, i, i + |t|);
  }

  lemma NumberStopsAtSpace(sql: string, i: nat)
    requires 0 < i < |sql| && sql[i] == ' '
    ensures !NumberContinues(sql, i)
  {
  }

  lemma BacktrackStays(sql: string, start: nat, i: nat)
    requires start < i <= |sql| && IsInitialNumber(sql[start]) && IsInitialNumber(sql[i - 1])
    ensures Backtrack(sql, start, i) == i
  {
  }

  // operators

  lemma {:induction false} OperatorEndIs(sql: string, i: nat, end: nat)
    requires i <= end < |sql| && !IsOperatorCharacter(sql[end])
    requires forall j :: i <= j < end ==> IsOperatorCharacter(sql[j])
    ensures OperatorEnd(sql, i) == end
    decreases end - i
  {
    if i < end {
      OperatorEndIs(sql, i + 1, end);
    }
  }

  /** Whether an operator has a special character does not depend on where it stands. */
  lemma {:induction false} SpecialCharacterMoves(sql: string, i: nat, t: string, k: nat)
    requires i + |t| <= |sql| && k <= |t|
    requires forall j :: 0 <= j < |t| ==> sql[i + j] == t[j]
    ensures HasSpecialOperatorCharacter(sql, i + k, i + |t|) <==> HasSpecialOperatorCharacter(t, k, |t|)
    decreases |t| - k
  {
    if k < |t| {
      assert sql[i + k] == t[k];
      SpecialCharacterMoves(sql, i, t, k + 1);
    }
  }

  lemma OperatorIsKept(sql: string, i: nat, t: string)
    requires Placed(sql, i, t) && IsOperator(t)
    ensures OperatorLexemes(sql, i, i + |t|) == [WordOf(sql, i, i + |t|)]
  {
    SpecialCharacterMoves(sql, i, t, 0);
    assert sql[i + (|t| - 1)] == t[|t| - 1];
  }

  lemma ReadsOperator(sql: string, i: nat, lastPos: nat, t: string)
    requires Placed(sql, i, t) && IsOperator(t)
    ensures ReadsAs(sql, i, lastPos, t)
  {
    hide AfterQuote, AfterComment, AfterWord, AfterNumber, LexDollar, ReadsAs, HasSpecialOperatorCharacter, OperatorLexemes;
    assert sql[i] == t[0];
    assert |t| > 1 ==> sql[i + 1] == t[1];
    assert forall j :: i <= j < i + |t| ==> sql[j] == t[j - i];
    OperatorEndIs(sql, i + 1, i + |t|);
    OperatorIsKept(sql, i, t);
    assert Lex(sql, i, lastPos) == AfterOperator(sql, i, i + |t|);
    ReadsAsOne(sql, i, lastPos, t, i, i + |t|);
  }

  lemma ReadsPlus(sql: string, i: nat, lastPos: nat)
    requires Placed(sql, i, "+")
    ensures ReadsAs(sql, i, lastPos, "+")
  {
    hide AfterQuote, AfterComment, AfterWord, AfterNumber, LexDollar, ReadsAs, OperatorLexemes;
    assert sql[i + 0] == '+';
    OperatorEndIs(sql, i + 1, i + 1);
    PlusIsGivenBack(sql, i);
    assert Lex(sql, i, lastPos) == AfterOperator(sql, i, i + 1);
    ReadsAsOne(sql, i, lastPos, "+", i, i + 1);
  }

  lemma PlusIsGivenBack(sql: string, i: nat)
    requires i < |sql| && sql[i] == '+'
    ensures OperatorLexemes(sql, i, i + 1) == [WordOf(sql, i, i + 1)]
  {
    assert !HasSpecialOperatorCharacter(sql, i + 1, i + 1);
    assert TrimPlus(sql, i, i) == i;
    assert OperatorTrim(sql, i, i + 1) == i;
    assert SingleCharacters(sql, i + 1, i + 1) == [];
    assert OperatorLexemes(sql, i, i + 1) == [] + ([WordOf(sql, i, i + 1)] + []);
  }

  // fixed operators and '$'

  lemma ReadsSpecialOperator(sql: string, i: nat, lastPos: nat, t: string)
    requires Placed(sql, i, t) && t in {"->>", "::", ":=", "->", "**", "//"}
    ensures ReadsAs(sql, i, lastPos, t)
  {
    hide AfterQuote, AfterComment, AfterWord, AfterNumber, AfterOperator, LexDollar, ReadsAs;
    assert sql[i + 0] == t[0] && sql[i + 1] == t[1];
    assert |t| == 3 ==> sql[i + 2] == t[2];
    assert SpecialOperatorLength(sql, i) == |t|;
    ReadsAsOne(sql, i, lastPos, t, lastPos, i + |t|);
  }

  lemma ReadsSingleByteOperator(sql: string, i: nat, lastPos: nat, t: string)
    requires Placed(sql, i, t) && |t| == 1 && IsSingleByteOperator(t[0]) && t[0] != '$'
    ensures ReadsAs(sql, i, lastPos, t)
  {
    hide AfterQuote, AfterComment, AfterWord, AfterNumber, AfterOperator, LexDollar, ReadsAs;
    assert sql[i + 0] == t[0] && t == [t[0]];
    ReadsAsOne(sql, i, lastPos, t, lastPos, i + 1);
  }

  lemma ReadsDollar(sql: string, i: nat, lastPos: nat)
    requires Placed(sql, i, "$")
    ensures ReadsAs(sql, i, lastPos, "$")
  {
    hide AfterQuote, AfterComment, AfterWord, AfterNumber, AfterOperator, ReadsAs, Lex, AfterDollar;
    assert sql[i + 0] == '$';
    LexOfTag(sql, i, lastPos);
    assert TagEnd(sql, i + 1) == None;
    ReadsAsOne(sql, i, lastPos, "$", i, i);
  }

  // literals

  /** A literal closes where its own text ends, because no quote follows. */
  lemma {:induction false} CloseQuotePlaced(sql: string, i: nat, t: string, k: nat, quote: char)
    requires Placed(sql, i, t) && k <= |t| && quote != ' ' && CloseQuote(t, k, quote) == Some(|t|)
    ensures CloseQuote(sql, i + k, quote) == Some(i + |t|)
    decreases |t| - k
  {
    assert sql[i + k] == t[k];
    if t[k] != quote {
      CloseQuotePlaced(sql, i, t, k + 1, quote);
    } else if k + 1 < |t| {
      assert sql[i + (k + 1)] == t[k + 1];
      CloseQuotePlaced(sql, i, t, k + 2, quote);
    }
  }

  lemma ReadsLiteral(sql: string, i: nat, lastPos: nat, t: string)
    requires Placed(sql, i, t) && IsLiteral(t)
    ensures ReadsAs(sql, i, lastPos, t)
  {
    hide AfterComment, AfterWord, AfterNumber, AfterOperator, LexDollar, ReadsAs, CloseQuote;
    assert sql[i + 0] == t[0];
    if IsQuoted(t, 0, '"') {
      CloseQuotePlaced(sql, i, t, 1, '"');
    } else if IsQuoted(t, 0, '\'') {
      CloseQuotePlaced(sql, i, t, 1, '\'');
    } else {
      assert sql[i + 1] == t[1];
      CloseQuotePlaced(sql, i, t, 2, '\'');
      PrefixBeginsWord(sql, i);
    }
    ReadsAsOne(sql, i, lastPos, t, i, i + |t|);
  }

  lemma PrefixBeginsWord(sql: string, i: nat)
    requires i < |sql| && IsStringPrefix(sql[i])
    ensures BeginsWord(sql, i) && SpecialOperatorLength(sql, i) == 0 && !IsSingleByteOperator(sql[i]) && !IsInitialNumber(sql[i])
  {
  }

  /** A token followed by a space is read as that token, wherever it stands. */
  lemma ReadsToken(sql: string, i: nat, lastPos: nat, t: string)
    requires Has(sql, i, t + " ") && IsToken(t)
    ensures i + |t| < |sql| && ReadsAs(sql, i, lastPos, t)
  {
    hide ReadsAs, Placed, IsWord, IsNumber, IsOperator, IsLiteral, Has;
    PlacedWhere(sql, i, t);
    PlacedInside(sql, i, t);
    if IsWord(t) {
      ReadsWord(sql, i, lastPos, t);
    } else if IsNumber(t) {
      ReadsNumber(sql, i, lastPos, t);
    } else if IsOperator(t) {
      ReadsOperator(sql, i, lastPos, t);
    } else if IsLiteral(t) {
      ReadsLiteral(sql, i, lastPos, t);
    } else if |t| > 1 {
      ReadsSpecialOperator(sql, i, lastPos, t);
    } else if t[0] == '$' {
      assert t == "$";
      ReadsDollar(sql, i, lastPos);
    } else if t == "+" {
      ReadsPlus(sql, i, lastPos);
    } else {
      ReadsSingleByteOperator(sql, i, lastPos, t);
    }
  }

  lemma PlacedInside(sql: string, i: nat, t: string)
    requires Placed(sql, i, t)
    ensures i + |t| < |sql|
  {
  }
}
