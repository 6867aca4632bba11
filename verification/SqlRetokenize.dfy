/**
 Tokenizing is stable: the tokens of any text, written with a space after each, are read back as the
 same tokens.  And a dollar-quoted string keeps its value when it is rewritten as a literal.
 */
module SqlRetokenize {
  import opened Options
  import opened SqlCharacters
  import opened SqlLexer
  import opened SqlTokenizer
  import opened SqlTokens
  import opened Texts

  // ---------------------------------------------------------------- every emitted token has a token's shape

  ghost predicate AllTokens(lexemes: seq<Lexeme>) {
    forall k :: 0 <= k < |lexemes| && lexemes[k].Word? ==> IsToken(lexemes[k].token.text)
  }

  lemma AllTokensThen(first: seq<Lexeme>, rest: Lexing)
    requires AllTokens(first) && AllTokens(rest.lexemes)
    ensures AllTokens(Then(first, rest).lexemes)
  {
    hide IsToken;
  }

  lemma AllTokensOne(lexeme: Lexeme, rest: Lexing)
    requires (lexeme.Word? ==> IsToken(lexeme.token.text)) && AllTokens(rest.lexemes)
    ensures AllTokens(Then([lexeme], rest).lexemes)
  {
    hide IsToken;
  }

  lemma {:induction false} WordEndChars(sql: string, i: nat)
    requires i <= |sql|
    ensures forall j :: i <= j < WordEnd(sql, i) ==> IsKeywordCharacter(sql[j])
    decreases |sql| - i
  {
    if i < |sql| && IsKeywordCharacter(sql[i]) {
      WordEndChars(sql, i + 1);
    }
  }

  lemma {:induction false} OperatorEndChars(sql: string, i: nat)
    requires i <= |sql|
    ensures forall j :: i <= j < OperatorEnd(sql, i) ==> IsOperatorCharacter(sql[j])
    decreases |sql| - i
  {
    if i < |sql| && IsOperatorCharacter(sql[i]) {
      OperatorEndChars(sql, i + 1);
    }
  }

  lemma {:induction false} NumberEndChars(sql: string, i: nat)
    requires 0 < i <= |sql|
    ensures forall j :: i <= j < NumberEnd(sql, i) ==> NumberContinues(sql, j)
    decreases |sql| - i
  {
    hide NumberContinues;
    if i < |sql| && NumberContinues(sql, i) {
      NumberEndChars(sql, i + 1);
    }
  }

  lemma EmittedWord(sql: string, i: nat)
    requires i < |sql| && IsKeywordCharacter(sql[i]) && !IsInitialNumber(sql[i])
    ensures i + 1 <= WordEnd(sql, i + 1) && IsToken(sql[i..WordEnd(sql, i + 1)])
  {
    hide WordEnd, IsNumber, IsOperator, IsFixed, IsLiteral;
    WordEndChars(sql, i + 1);
    var t := sql[i..WordEnd(sql, i + 1)];
    forall k | 0 <= k < |t|
      ensures IsKeywordCharacter(t[k])
    {
      assert t[k] == sql[i + k];
    }
  }

  lemma NumberMoves(sql: string, start: nat, end: nat, j: nat)
    requires start < j < end <= |sql| && NumberContinues(sql, j) && IsInitialNumber(sql[end - 1])
    ensures NumberContinues(sql[start..end], j - start)
  {
    var t := sql[start..end];
    assert t[j - start] == sql[j] && t[j - start - 1] == sql[j - 1];
    if j + 1 < end {
      assert t[j - start + 1] == sql[j + 1];
    }
  }

  lemma EmittedNumber(sql: string, i: nat)
    requires i < |sql| && IsInitialNumber(sql[i])
    ensures i + 1 <= NumberEnd(sql, i + 1)
    ensures IsToken(sql[i..Backtrack(sql, i, NumberEnd(sql, i + 1))])
  {
    hide NumberEnd, NumberContinues, Backtrack, IsWord, IsOperator, IsFixed, IsLiteral;
    NumberEndChars(sql, i + 1);
    var e := Backtrack(sql, i, NumberEnd(sql, i + 1));
    var t := sql[i..e];
    forall k | 0 < k < |t|
      ensures NumberContinues(t, k)
    {
      NumberMoves(sql, i, e, i + k);
    }
  }

  lemma EmittedOperator(sql: string, i: nat)
    requires i < |sql| && IsPunctuation(sql[i]) && BeginsWord(sql, i) && SpecialOperatorLength(sql, i) == 0
    requires !IsSingleByteOperator(sql[i]) && !IsInitialNumber(sql[i])
    ensures i + 1 <= OperatorEnd(sql, i + 1) && AllTokens(OperatorLexemes(sql, i, OperatorEnd(sql, i + 1)))
  {
    hide OperatorEnd, TrimPlus, HasSpecialOperatorCharacter, IsOperator, IsToken, SingleCharacters;
    var end := OperatorEnd(sql, i + 1);
    var trimmed := OperatorTrim(sql, i, end);
    PlusTokens(sql, trimmed, end);
    if i < trimmed {
      OperatorEndChars(sql, i + 1);
      TrimmedOperator(sql, i, end);
      OperatorIsToken(sql[i..trimmed]);
    }
  }

  lemma OperatorIsToken(t: string)
    requires IsOperator(t)
    ensures IsToken(t)
  {
  }

  lemma TrimmedOperator(sql: string, i: nat, end: nat)
    requires i < end <= |sql| && BeginsWord(sql, i) && SpecialOperatorLength(sql, i) == 0 && IsOperatorCharacter(sql[i])
    requires forall j :: i < j < end ==> IsOperatorCharacter(sql[j])
    requires i < OperatorTrim(sql, i, end)
    ensures IsOperator(sql[i..OperatorTrim(sql, i, end)])
  {
    hide TrimPlus, HasSpecialOperatorCharacter, IsOperatorCharacter;
    var t := sql[i..OperatorTrim(sql, i, end)];
    assert forall k :: 0 <= k < |t| ==> t[k] == sql[i + k];
    assert forall k :: 0 <= k < |t| ==> IsOperatorCharacter(t[k]);
    SpecialCharacterMoves(sql, i, t, 0);
  }

  lemma {:induction false} PlusTokens(sql: string, start: nat, end: nat)
    requires start <= end <= |sql| && forall j :: start <= j < end ==> sql[j] == '+'
    ensures AllTokens(SingleCharacters(sql, start, end))
    decreases end - start
  {
    if start < end {
      PlusTokens(sql, start + 1, end);
      assert sql[start..start + 1] == "+";
    }
  }

  lemma {:induction false} CloseQuoteOf(sql: string, start: nat, i: nat, quote: char, end: nat)
    requires start <= i <= |sql| && CloseQuote(sql, i, quote) == Some(end)
    ensures i < end && CloseQuote(sql[start..end], i - start, quote) == Some(end - start)
    decreases |sql| - i
  {
    var t := sql[start..end];
    assert t[i - start] == sql[i];
    if sql[i] != quote {
      CloseQuoteOf(sql, start, i + 1, quote, end);
    } else if i + 1 < |sql| && sql[i + 1] == quote {
      CloseQuoteOf(sql, start, i + 2, quote, end);
      assert t[i + 1 - start] == sql[i + 1];
    }
  }

  lemma EmittedLiteral(sql: string, start: nat, open: nat, quote: char, end: nat)
    requires open < |sql| && sql[open] == quote && CloseQuote(sql, open + 1, quote) == Some(end)
    requires (open == start && quote in {'\'', '"'}) || (open == start + 1 && quote == '\'' && IsStringPrefix(sql[start]))
    ensures IsToken(sql[start..end])
  {
    hide CloseQuote, IsWord, IsNumber, IsOperator, IsFixed;
    CloseQuoteOf(sql, start, open + 1, quote, end);
    var t := sql[start..end];
    assert t[open - start] == quote && t[0] == sql[start];
    assert IsQuoted(t, open - start, quote);
  }

  // ---------------------------------------------------------------- replacing

  /** The text after a position of a rewritten body: what is left of the body, rewritten, and the quote. */
  lemma {:induction false} RequotedCloses(t: string, i: nat, body: string)
    requires EndsWith(t, i, Replace(body, "'", "''") + "'")
    ensures CloseQuote(t, i, '\'') == Some(|t|)
    decreases |body|
  {
    if body == "" {
      assert t[i..] == "'";
      assert t[i] == t[i..][0] && |t| == i + 1;
    } else {
      var rest := Replace(body[1..], "'", "''") + "'";
      var first := if body[0] == '\'' then "''" else [body[0]];
      ReplaceFirst(body);
      assert Replace(body, "'", "''") + "'" == first + rest;
      EndsWithParts(t, i, first, rest);
      HasChar(t, i, first, 0);
      HasChar(t, i, first, |first| - 1);
      RequotedCloses(t, i + |first|, body[1..]);
      assert rest != "";
      assert i + |first| < |t| by { assert |t[i + |first|..]| == |rest|; }
    }
  }

  lemma ReplaceFirst(body: string)
    requires body != ""
    ensures Replace(body, "'", "''") == (if body[0] == '\'' then "''" else [body[0]]) + Replace(body[1..], "'", "''")
  {
    assert body[..1] == [body[0]];
  }

  lemma RequotedIsToken(body: string)
    ensures IsToken(Requoted(body))
  {
    var t := Requoted(body);
    assert t[1..] == Replace(body, "'", "''") + "'";
    RequotedCloses(t, 1, body);
    assert IsQuoted(t, 0, '\'');
  }

  /** Doubling every quote and then halving every pair gives the text back. */
  lemma {:induction false} QuotesComeBack(body: string)
    ensures Replace(Replace(body, "'", "''"), "''", "'") == body
    decreases |body|
  {
    if body != "" {
      var rest := Replace(body[1..], "'", "''");
      ReplaceFirst(body);
      QuotesComeBack(body[1..]);
      if body[0] == '\'' {
        HalvePair(rest);
      } else {
        KeepCharacter(body[0], rest);
      }
      assert body == [body[0]] + body[1..];
    }
  }

  lemma HalvePair(rest: string)
    ensures Replace("''" + rest, "''", "'") == "'" + Replace(rest, "''", "'")
  {
    var s := "''" + rest;
    assert s[..2] == "''" && s[2..] == rest;
  }

  lemma KeepCharacter(c: char, rest: string)
    requires c != '\''
    ensures Replace([c] + rest, "''", "'") == [c] + Replace(rest, "''", "'")
  {
    var s := [c] + rest;
    assert s[1..] == rest;
    if |s| >= 2 {
      assert s[..2][0] == c;
    } else {
      assert rest == "";
    }
  }

  /** How many characters come before a literal's body: its quote, and a prefix letter before that. */
  function PrefixLength(text: string): nat {
    if text == "" then 0
    else if text[0] == '\'' then 1
    else if |text| > 1 && text[1] == '\'' && IsStringPrefix(text[0]) then 2
    else 1
  }

  /** The value of a string literal token, if the token is one. */
  function StringLiteralValue(text: string): Option<string> {
    var prefix := PrefixLength(text);
    if prefix > 0 && |text| >= prefix + 1 && text[prefix - 1] == '\'' && text[|text| - 1] == '\''
    then Some(Replace(text[prefix..|text| - 1], "''", "'"))
    else None
  }

  /** A dollar-quoted string rewritten as a literal has its body as its value. */
  lemma BodyComesBack(body: string)
    ensures StringLiteralValue(Requoted(body)) == Some(body)
  {
    QuotesComeBack(body);
    var t := Requoted(body);
    assert t[1..|t| - 1] == Replace(body, "'", "''");
  }

  // ---------------------------------------------------------------- all tokens of a text

  lemma {:induction false} WordsAreTokens(sql: string, i: nat, lastPos: nat)
    requires i < |sql| && BeginsWord(sql, i)
    ensures AllTokens(Lex(sql, i, lastPos).lexemes)
    decreases |sql| - i, 1
  {
    hide IsToken, CloseQuote, NumberEnd, OperatorEnd, WordEnd, SpecialOperatorLength, Backtrack, OperatorLexemes;
    var c, end := sql[i], i + SpecialOperatorLength(sql, i);
    if end > i {
      LexedAreTokens(sql, end, end);
      SpecialOperatorIsToken(sql, i);
      AllTokensOne(Word(Token(sql[i..end], lastPos), i, end), Lex(sql, end, end));
    } else if IsSingleByteOperator(c) {
      LexedAreTokens(sql, i + 1, i + 1);
      SingleByteIsToken(c);
      AllTokensOne(Word(Token([c], lastPos), i, i + 1), Lex(sql, i + 1, i + 1));
    } else if IsInitialNumber(c) {
      EmittedNumber(sql, i);
      var n := NumberEnd(sql, i + 1);
      if n < |sql| {
        var e := Backtrack(sql, i, n);
        LexedAreTokens(sql, e, e);
        AllTokensOne(WordOf(sql, i, e), Lex(sql, e, e));
      }
    } else if IsStringPrefix(c) && i + 1 < |sql| && sql[i + 1] == '\'' {
      LiteralsAreTokens(sql, i, i + 1, '\'', StringLiteral);
    } else if IsPunctuation(c) {
      EmittedOperator(sql, i);
      var n := OperatorEnd(sql, i + 1);
      if n < |sql| {
        LexedAreTokens(sql, n, n);
        AllTokensThen(OperatorLexemes(sql, i, n), Lex(sql, n, n));
      }
    } else {
      EmittedWord(sql, i);
      var n := WordEnd(sql, i + 1);
      if n < |sql| {
        LexedAreTokens(sql, n, n);
        AllTokensOne(WordOf(sql, i, n), Lex(sql, n, n));
      }
    }
  }

  lemma SpecialOperatorIsToken(sql: string, i: nat)
    requires i < |sql| && SpecialOperatorLength(sql, i) > 0
    ensures IsToken(sql[i..i + SpecialOperatorLength(sql, i)])
  {
    var t := sql[i..i + SpecialOperatorLength(sql, i)];
    assert t == if |t| == 3 then [sql[i], sql[i + 1], sql[i + 2]] else [sql[i], sql[i + 1]];
  }

  lemma SingleByteIsToken(c: char)
    requires IsSingleByteOperator(c)
    ensures IsToken([c])
  {
  }

  lemma {:induction false} LiteralsAreTokens(sql: string, start: nat, open: nat, quote: char, state: TokenizeState)
    requires open < |sql| && sql[open] == quote
    requires (open == start && quote in {'\'', '"'}) || (open == start + 1 && quote == '\'' && IsStringPrefix(sql[start]))
    ensures AllTokens(AfterQuote(sql, start, state, CloseQuote(sql, open + 1, quote)).lexemes)
    decreases |sql| - start, 0
  {
    hide IsToken, CloseQuote, Lex;
    var close := CloseQuote(sql, open + 1, quote);
    if close.Some? {
      LexedAreTokens(sql, close.value, close.value);
      EmittedLiteral(sql, start, open, quote, close.value);
      AllTokensOne(WordOf(sql, start, close.value), Lex(sql, close.value, close.value));
    }
  }

  lemma {:induction false} DollarsAreTokens(sql: string, i: nat, lastPos: nat)
    requires i < |sql| && sql[i] == '$'
    ensures AllTokens(LexDollar(sql, i, lastPos).lexemes)
    decreases |sql| - i, 1
  {
    hide IsToken, Lex, TagEnd, MarkerClose, MarkerOf, MarkerAt, Requoted;
    if i + 1 < |sql| {
      SingleByteIsToken('$');
      assert sql[i..i + 1] == ['$'];
      if IsDigit(sql[i + 1]) {
        LexedAreTokens(sql, i + 1, lastPos);
        AllTokensOne(WordOf(sql, i, i + 1), Lex(sql, i + 1, lastPos));
      } else if TagEnd(sql, i + 1) == None {
        LexedAreTokens(sql, i + 1, i);
        AllTokensOne(WordOf(sql, i, i + 1), Lex(sql, i + 1, i));
      } else {
        DollarQuotedIsToken(sql, i);
      }
    }
  }

  lemma {:induction false} DollarQuotedIsToken(sql: string, i: nat)
    requires i + 1 < |sql| && sql[i] == '$' && TagEnd(sql, i + 1).Some?
    ensures var m := MarkerOf(sql, i + 1);
            AllTokens(AfterDollar(sql, i, m, MarkerClose(sql, i + |m| + 2, m)).lexemes)
    decreases |sql| - i, 0
  {
    hide IsToken, Lex, TagEnd, MarkerClose, MarkerOf, Requoted;
    var m := MarkerOf(sql, i + 1);
    var close := MarkerClose(sql, i + |m| + 2, m);
    if close.Some? {
      var end := close.value + |m| + 2;
      LexedAreTokens(sql, end, end);
      RequotedIsToken(sql[i + |m| + 2..close.value]);
      AllTokensOne(DollarWord(sql, i, m, close.value), Lex(sql, end, end));
    }
  }

  /** Every token that is emitted, from any position on, has the shape of a token. */
  lemma {:induction false} LexedAreTokens(sql: string, i: nat, lastPos: nat)
    requires i <= |sql|
    ensures AllTokens(Lex(sql, i, lastPos).lexemes)
    decreases |sql| - i, 2
  {
    hide IsToken, CloseQuote, LineEnd, BlockEnd, LexDollar, AfterNumber, AfterOperator, AfterWord;
    if i < |sql| {
      var c, next := sql[i], if i + 1 < |sql| then sql[i + 1] else ' ';
      if c == '\'' {
        LiteralsAreTokens(sql, i, i, '\'', StringLiteral);
      } else if c == '"' {
        LiteralsAreTokens(sql, i, i, '"', QuotedIdentifier);
      } else if c == ';' {
        LexedAreTokens(sql, i + 1, i + 1);
        AllTokensOne(StatementEnd(i, i + 1), Lex(sql, i + 1, i + 1));
      } else if c == '$' {
        DollarsAreTokens(sql, i, lastPos);
      } else if c == '-' && next == '-' {
        CommentsAreNoTokens(sql, i, SingleLineComment, lastPos, LineEnd(sql, i + 2));
      } else if c == '/' && next == '*' {
        CommentsAreNoTokens(sql, i, MultiLineComment, lastPos, BlockEnd(sql, i + 2));
      } else if IsSpace(c) {
        LexedAreTokens(sql, i + 1, i + 1);
      } else {
        WordsAreTokens(sql, i, lastPos);
      }
    }
  }

  lemma {:induction false} CommentsAreNoTokens(sql: string, i: nat, state: TokenizeState, lastPos: nat, close: Option<nat>)
    requires i < |sql| && (close.Some? ==> i < close.value <= |sql|)
    ensures AllTokens(AfterComment(sql, i, state, lastPos, close).lexemes)
    decreases |sql| - i, 0
  {
    hide IsToken, Lex;
    if close.Some? {
      LexedAreTokens(sql, close.value, close.value);
      AllTokensOne(Comment(i, close.value), Lex(sql, close.value, close.value));
    }
  }

  // ---------------------------------------------------------------- reading tokens again

  /** The tokens' texts, each followed by a space. */
  function Join(texts: seq<string>): string {
    if texts == [] then "" else texts[0] + " " + Join(texts[1..])
  }

  function TextsOf(tokens: seq<Token>): (texts: seq<string>)
    ensures |texts| == |tokens| && forall k :: 0 <= k < |texts| ==> texts[k] == tokens[k].text
  {
    seq(|tokens|, k requires 0 <= k < |tokens| => tokens[k].text)
  }

  /** The lexemes are words with these texts, and nothing else. */
  ghost predicate WordsAre(lexemes: seq<Lexeme>, texts: seq<string>) {
    |lexemes| == |texts| && forall k :: 0 <= k < |texts| ==> lexemes[k].Word? && lexemes[k].token.text == texts[k]
  }

  ghost predicate TextsAreTokens(texts: seq<string>) {
    forall k :: 0 <= k < |texts| ==> IsToken(texts[k])
  }

  /** The lexing yields the words `texts` and ends in the standard state with nothing left over. */
  ghost predicate Yields(lexing: Lexing, texts: seq<string>, end: nat) {
    WordsAre(lexing.lexemes, texts) && lexing.state == Standard && lexing.lastPos == end
  }

  lemma {:induction false} JoinedTokensAreRead(sql: string, i: nat, texts: seq<string>)
    requires EndsWith(sql, i, Join(texts)) && TextsAreTokens(texts)
    ensures i <= |sql| && Yields(Lex(sql, i, i), texts, |sql|)
    decreases |texts|
  {
    hide Lex, IsToken, ReadsAs, Yields, TextsAreTokens, EndsWith;
    if texts == [] {
      NothingIsRead(sql, i);
    } else {
      FirstTokenIsRead(sql, i, texts);
      JoinedTokensAreRead(sql, i + |texts[0]| + 1, texts[1..]);
      ReadsThenYields(sql, i, texts);
    }
  }

  lemma NothingIsRead(sql: string, i: nat)
    requires EndsWith(sql, i, "")
    ensures i <= |sql| && Yields(Lex(sql, i, i), [], |sql|)
  {
    assert |sql[i..]| == 0;
  }

  lemma FirstTokenIsRead(sql: string, i: nat, texts: seq<string>)
    requires texts != [] && EndsWith(sql, i, Join(texts)) && TextsAreTokens(texts)
    ensures i + |texts[0]| < |sql| && ReadsAs(sql, i, i, texts[0])
    ensures EndsWith(sql, i + |texts[0]| + 1, Join(texts[1..])) && TextsAreTokens(texts[1..])
  {
    hide IsToken, ReadsAs;
    EndsWithParts(sql, i, texts[0] + " ", Join(texts[1..]));
    ReadsToken(sql, i, i, texts[0]);
  }

  lemma ReadsThenYields(sql: string, i: nat, texts: seq<string>)
    requires texts != [] && i + |texts[0]| < |sql| && ReadsAs(sql, i, i, texts[0])
    requires var next := i + |texts[0]| + 1; Yields(Lex(sql, next, next), texts[1..], |sql|)
    ensures Yields(Lex(sql, i, i), texts, |sql|)
  {
    hide Lex;
    var here := Lex(sql, i, i).lexemes;
    forall k | 0 <= k < |texts|
      ensures here[k].Word? && here[k].token.text == texts[k]
    {
      if k > 0 {
        assert here[k] == here[1..][k - 1] && texts[k] == texts[1..][k - 1];
      }
    }
  }

  lemma {:induction false} TokensOfAreTokens(log: seq<Lexeme>)
    requires AllTokens(log)
    ensures TextsAreTokens(TextsOf(TokensOf(log)))
    decreases |log|
  {
    hide IsToken;
    if log != [] {
      var before := log[..|log| - 1];
      TokensOfAreTokens(before);
      var tokens := TokensOf(before);
      assert log[|log| - 1].Word? ==> IsToken(log[|log| - 1].token.text);
      assert forall k :: 0 <= k < |tokens| ==> IsToken(tokens[k].text) by {
        assert forall k :: 0 <= k < |tokens| ==> TextsOf(tokens)[k] == tokens[k].text;
      }
    }
  }

  lemma {:induction false} TokensWithoutStatementEnd(log: seq<Lexeme>)
    requires forall k :: 0 <= k < |log| ==> !log[k].StatementEnd?
    ensures StatementsOf(log) == []
    decreases |log|
  {
    if log != [] {
      TokensWithoutStatementEnd(log[..|log| - 1]);
    }
  }

  /** The tokens of the last statement of any text are read back from their own texts, each followed by a
      space: the same texts, in the same order, as one statement with no word left over.  The last word,
      which the client appends when it is not empty, is not among these tokens. */
  lemma TokenizingIsStable(sql: string)
    ensures var texts := TextsOf(TokensOf(Lex(sql, 0, 0).lexemes));
            var again := Lex(Join(texts), 0, 0);
            && again.state == Standard && again.lastPos == |Join(texts)| && LastWord(Join(texts), again) == []
            && TextsOf(TokensOf(again.lexemes)) == texts && StatementsOf(again.lexemes) == []
  {
    hide Lex, IsToken, AllTokens;
    var texts := TextsOf(TokensOf(Lex(sql, 0, 0).lexemes));
    LexedAreTokens(sql, 0, 0);
    TokensOfAreTokens(Lex(sql, 0, 0).lexemes);
    var joined := Join(texts);
    assert joined[0..] == joined;
    JoinedTokensAreRead(joined, 0, texts);
    WordsGiveTheirTexts(Lex(joined, 0, 0).lexemes, texts);
    TokensWithoutStatementEnd(Lex(joined, 0, 0).lexemes);
  }

  lemma {:induction false} WordsGiveTheirTexts(lexemes: seq<Lexeme>, texts: seq<string>)
    requires WordsAre(lexemes, texts)
    ensures TextsOf(TokensOf(lexemes)) == texts
    decreases |texts|
  {
    if texts != [] {
      var n := |texts| - 1;
      WordsGiveTheirTexts(lexemes[..n], texts[..n]);
      assert TokensOf(lexemes) == TokensOf(lexemes[..n]) + [lexemes[n].token];
      assert texts == texts[..n] + [texts[n]];
    }
  }
}
