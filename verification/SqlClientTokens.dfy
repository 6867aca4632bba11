/**
 All tokens that the client of the tokenizer gets, the last word and the finished statements included: when
 they are read back from their own texts.
 */
module SqlClientTokens {
  import opened Options
  import opened SqlCharacters
  import opened SqlLexer
  import opened SqlTokenizer
  import opened SqlCoverage
  import opened SqlTokens
  import opened SqlRetokenize

  /** The texts of the tokens in the client's hands at the end: those since the last statement end, and the last
      word when there is one. */
  function ClientTexts(sql: string): seq<string> {
    var lexing := Lex(sql, 0, 0);
    TextsOf(TokensOf(lexing.lexemes)) + TextsOf(ClientLastWord(sql))
  }

  function ClientLastWord(sql: string): seq<Token> {
    var lexing := Lex(sql, 0, 0);
    if EndsInside(lexing.state) then [] else LastWord(sql, lexing)
  }

  // ---------------------------------------------------------------- a text that ends in a space

  /** Nothing is left over but an open quote, which does not begin with a space. */
  predicate EndsClean(sql: string, lexing: Lexing) {
    match lexing.state
    case Standard => lexing.lastPos == |sql|
    case QuotedIdentifier => lexing.lastPos < |sql| && sql[lexing.lastPos] != ' '
    case StringLiteral => lexing.lastPos < |sql| && sql[lexing.lastPos] != ' '
    case _ => EndsInside(lexing.state)
  }

  predicate EndsInSpace(sql: string) { sql != "" && sql[|sql| - 1] == ' ' }

  lemma CleanWord(sql: string, i: nat, end: nat)
    requires EndsInSpace(sql) && i < end < |sql| && EndsClean(sql, Lex(sql, end, end))
    ensures EndsClean(sql, AfterWord(sql, i, end)) && EndsClean(sql, AfterOperator(sql, i, end))
  {
    hide Lex;
  }

  lemma WordsEndBeforeSpace(sql: string, i: nat)
    requires EndsInSpace(sql) && i < |sql| && sql[i] != ' '
    ensures WordEnd(sql, i + 1) < |sql| && OperatorEnd(sql, i + 1) < |sql| && NumberEnd(sql, i + 1) < |sql|
  {
    hide WordEnd, OperatorEnd, NumberEnd;
    WordEndChars(sql, i + 1);
    OperatorEndChars(sql, i + 1);
    NumberEndChars(sql, i + 1);
    assert !NumberContinues(sql, |sql| - 1);
  }

  lemma {:induction false} CleanQuote(sql: string, i: nat, state: TokenizeState, close: Option<nat>)
    requires EndsInSpace(sql) && i < |sql| && sql[i] != ' ' && (state == QuotedIdentifier || state == StringLiteral)
    requires close.Some? ==> i < close.value <= |sql|
    ensures EndsClean(sql, AfterQuote(sql, i, state, close))
    decreases |sql| - i, 0
  {
    hide Lex;
    if close.Some? {
      SpaceEndsClean(sql, close.value, close.value);
    }
  }

  lemma {:induction false} CleanComment(sql: string, i: nat, state: TokenizeState, lastPos: nat, close: Option<nat>)
    requires EndsInSpace(sql) && i < |sql| && EndsInside(state) && (close.Some? ==> i < close.value <= |sql|)
    ensures EndsClean(sql, AfterComment(sql, i, state, lastPos, close))
    decreases |sql| - i, 0
  {
    hide Lex;
    if close.Some? {
      SpaceEndsClean(sql, close.value, close.value);
    }
  }

  lemma {:induction false} CleanDollar(sql: string, i: nat)
    requires EndsInSpace(sql) && i < |sql| && sql[i] == '$'
    ensures EndsClean(sql, LexDollar(sql, i, i))
    decreases |sql| - i, 0
  {
    hide Lex, TagEnd, MarkerClose, MarkerOf, DollarWord, Requoted;
    if IsDigit(sql[i + 1]) {
      SpaceEndsClean(sql, i + 1, i);
    } else if TagEnd(sql, i + 1) == None {
      NoTagNoDollar(sql, i + 1);
      SpaceEndsClean(sql, i + 1, i);
    } else {
      var m := MarkerOf(sql, i + 1);
      var close := MarkerClose(sql, i + |m| + 2, m);
      if close.Some? {
        SpaceEndsClean(sql, close.value + |m| + 2, close.value + |m| + 2);
      }
    }
  }

  lemma {:induction false} CleanWords(sql: string, i: nat, lastPos: nat)
    requires EndsInSpace(sql) && i < |sql| && BeginsWord(sql, i)
    ensures EndsClean(sql, Lex(sql, i, lastPos))
    decreases |sql| - i, 1
  {
    hide WordEnd, OperatorEnd, NumberEnd, CloseQuote, SpecialOperatorLength, AfterWord, AfterOperator, OperatorLexemes;
    var end := i + SpecialOperatorLength(sql, i);
    if end > i {
      SpaceEndsClean(sql, end, end);
    } else if IsSingleByteOperator(sql[i]) {
      SpaceEndsClean(sql, i + 1, i + 1);
    } else if IsInitialNumber(sql[i]) {
      WordsEndBeforeSpace(sql, i);
      var e := Backtrack(sql, i, NumberEnd(sql, i + 1));
      SpaceEndsClean(sql, e, e);
    } else if IsStringPrefix(sql[i]) && i + 1 < |sql| && sql[i + 1] == '\'' {
      CleanQuote(sql, i, StringLiteral, CloseQuote(sql, i + 2, '\''));
    } else {
      WordsEndBeforeSpace(sql, i);
      var word, operator := WordEnd(sql, i + 1), OperatorEnd(sql, i + 1);
      SpaceEndsClean(sql, word, word);
      SpaceEndsClean(sql, operator, operator);
      CleanWord(sql, i, word);
      CleanWord(sql, i, operator);
    }
  }

  lemma {:induction false} SpaceEndsClean(sql: string, i: nat, lastPos: nat)
    requires EndsInSpace(sql) && WordStart(sql, i, lastPos)
    ensures EndsClean(sql, Lex(sql, i, lastPos))
    decreases |sql| - i, 2
  {
    hide CloseQuote, LineEnd, BlockEnd, LexDollar, AfterNumber, AfterOperator, AfterWord, AfterQuote, AfterComment;
    if i < |sql| {
      var c, next := sql[i], if i + 1 < |sql| then sql[i + 1] else ' ';
      if c == '\'' {
        CleanQuote(sql, i, StringLiteral, CloseQuote(sql, i + 1, '\''));
      } else if c == '"' {
        CleanQuote(sql, i, QuotedIdentifier, CloseQuote(sql, i + 1, '"'));
      } else if c == ';' {
        SpaceEndsClean(sql, i + 1, i + 1);
      } else if c == '$' {
        CleanDollar(sql, i);
      } else if c == '-' && next == '-' {
        CleanComment(sql, i, SingleLineComment, lastPos, LineEnd(sql, i + 2));
      } else if c == '/' && next == '*' {
        CleanComment(sql, i, MultiLineComment, lastPos, BlockEnd(sql, i + 2));
      } else if IsSpace(c) {
        SpaceEndsClean(sql, i + 1, i + 1);
      } else {
        CleanWords(sql, i, lastPos);
      }
    }
  }

  // ---------------------------------------------------------------- the last word

  /** A stretch at the end of a text that equals the stretch one place before it is all of the last character. */
  lemma {:induction false} ShiftedIsConstant(s: string, start: nat, k: nat)
    requires 0 < start <= |s| && start <= k + 1 && k < |s|
    requires forall j :: start <= j < |s| ==> s[j - 1] == s[j]
    ensures s[k] == s[|s| - 1]
    decreases |s| - k
  {
    if k < |s| - 1 {
      ShiftedIsConstant(s, start, k + 1);
      assert s[k + 1 - 1] == s[k + 1];
    }
  }

  lemma {:induction false} JoinedAtTheEnd(texts: seq<string>, w: string)
    ensures exists before :: Join(texts + [w]) == before + w + " "
    decreases |texts|
  {
    if texts == [] {
      assert ([] + [w])[1..] == [] && Join([w]) == "" + w + " ";
      assert texts + [w] == [w];
    } else {
      JoinedAtTheEnd(texts[1..], w);
      var before :| Join(texts[1..] + [w]) == before + w + " ";
      assert (texts + [w])[1..] == texts[1..] + [w];
      assert Join(texts + [w]) == (texts[0] + " " + before) + w + " ";
    }
  }

  /** Only a blank word stands at the end of a text and one place before it as well. */
  lemma ShiftedWordIsBlank(before: string, w: string)
    requires w != ""
    ensures var sql, start := before + w + " ", |before| + 1;
            sql[start..] == w ==> sql[start] == ' ' && sql[start - 1] == ' '
  {
    var sql, start := before + w + " ", |before| + 1;
    if sql[start..] == w {
      forall j | start <= j < |sql|
        ensures sql[j - 1] == sql[j]
      {
        assert sql[j] == w[j - start] && sql[j - 1] == w[j - 1 - |before|];
      }
      ShiftedIsConstant(sql, start, start);
      ShiftedIsConstant(sql, start, start - 1);
    }
  }

  /** A word that is followed by a space is not the last word of the text again. */
  lemma NotTheLastWord(before: string, w: string)
    requires w != ""
    ensures TextsOf(ClientLastWord(before + w + " ")) != [w]
  {
    hide Lex;
    var sql := before + w + " ";
    var last := ClientLastWord(sql);
    SpaceEndsClean(sql, 0, 0);
    ShiftedWordIsBlank(before, w);
    if last != [] {
      var start := last[0].offset;
      assert last[0].text == sql[start..] && (sql[start] != ' ' || sql[start - 1] != ' ');
      assert start != |before| + 1 ==> |sql[start..]| != |w|;
      assert TextsOf(last)[0] != w;
    }
  }

  // ---------------------------------------------------------------- the theorems

  /** Texts of tokens, joined by spaces, are read as themselves. */
  lemma TokenTextsComeBack(texts: seq<string>)
    requires TextsAreTokens(texts)
    ensures ClientTexts(Join(texts)) == texts && StatementsOf(Lex(Join(texts), 0, 0).lexemes) == []
  {
    hide Lex, TextsAreTokens;
    var joined := Join(texts);
    assert joined[0..] == joined;
    JoinedTokensAreRead(joined, 0, texts);
    WordsGiveTheirTexts(Lex(joined, 0, 0).lexemes, texts);
    TokensWithoutStatementEnd(Lex(joined, 0, 0).lexemes);
    assert texts + [] == texts;
  }

  /** With one more text at the end they are if and only if that one has the shape of a token. */
  lemma LastTextComesBack(texts: seq<string>, w: string)
    requires TextsAreTokens(texts) && w != ""
    ensures ClientTexts(Join(texts + [w])) == texts + [w] <==> IsToken(w)
  {
    hide Lex, IsToken, Join;
    var all := texts + [w];
    if IsToken(w) {
      TokenTextsComeBack(all);
    }
    if ClientTexts(Join(all)) == all {
      var sql := Join(all);
      JoinedAtTheEnd(texts, w);
      var before :| sql == before + w + " ";
      NotTheLastWord(before, w);
      var tokens := TextsOf(TokensOf(Lex(sql, 0, 0).lexemes));
      LexedAreTokens(sql, 0, 0);
      TokensOfAreTokens(Lex(sql, 0, 0).lexemes);
      LastOf(tokens, TextsOf(ClientLastWord(sql)), w, all);
    }
  }

  lemma LastOf(tokens: seq<string>, last: seq<string>, w: string, all: seq<string>)
    requires |last| <= 1 && tokens + last == all && all != [] && all[|all| - 1] == w && TextsAreTokens(tokens)
    ensures last == [w] || IsToken(w)
  {
    hide IsToken;
    if last == [] {
      assert w == tokens[|tokens| - 1];
    } else {
      assert last[0] == all[|all| - 1];
    }
  }

  /** The client's tokens of a text are read back from their own texts, each followed by a space, if and only if
      there is no last word or the last word has the shape of a token. */
  lemma ClientTokensComeBack(sql: string)
    ensures ClientTexts(Join(ClientTexts(sql))) == ClientTexts(sql)
       <==> ClientLastWord(sql) == [] || IsToken(ClientLastWord(sql)[0].text)
  {
    hide Lex, IsToken, Join;
    var tokens, last := TextsOf(TokensOf(Lex(sql, 0, 0).lexemes)), ClientLastWord(sql);
    LexedAreTokens(sql, 0, 0);
    TokensOfAreTokens(Lex(sql, 0, 0).lexemes);
    if last == [] {
      assert tokens + TextsOf(last) == tokens;
      TokenTextsComeBack(tokens);
    } else {
      assert TextsOf(last) == [last[0].text];
      LastTextComesBack(tokens, last[0].text);
    }
  }

  lemma {:induction false} StatementsOfAreTokens(log: seq<Lexeme>, k: nat)
    requires AllTokens(log) && k < |StatementsOf(log)|
    ensures TextsAreTokens(TextsOf(StatementsOf(log)[k]))
    decreases |log|
  {
    hide IsToken;
    var before := log[..|log| - 1];
    if k < |StatementsOf(before)| {
      StatementsOfAreTokens(before, k);
    } else {
      TokensOfAreTokens(before);
    }
  }

  /** The tokens of every finished statement are read back from their own texts. */
  lemma StatementsComeBack(sql: string, k: nat)
    requires k < |StatementsOf(Lex(sql, 0, 0).lexemes)|
    ensures var texts := TextsOf(StatementsOf(Lex(sql, 0, 0).lexemes)[k]);
            ClientTexts(Join(texts)) == texts && StatementsOf(Lex(Join(texts), 0, 0).lexemes) == []
  {
    hide Lex, IsToken, Join;
    LexedAreTokens(sql, 0, 0);
    StatementsOfAreTokens(Lex(sql, 0, 0).lexemes, k);
    TokenTextsComeBack(TextsOf(StatementsOf(Lex(sql, 0, 0).lexemes)[k]));
  }

  lemma OpenText()
    ensures ClientTexts("1e") == ["1e"]
  {
    hide Lex;
    OpenNumber("1e");
    assert TextsOf(LastWord("1e", Lex("1e", 0, 0))) == ["1e"];
    assert [] + ["1e"] == ["1e"];
  }

  lemma SplitText()
    ensures ClientTexts("1e ") == ["1", "e"]
  {
    hide Lex, WordOf, TokensOf;
    SplitNumber("1e ");
    TwoWords("1e ", Lex("1e ", 0, 0).lexemes);
    assert ["1", "e"] + [] == ["1", "e"];
  }

  /** For example, a number at the end of the text that stops at its exponent comes back as two tokens. */
  lemma OpenExponentSplits()
    ensures ClientTexts("1e") == ["1e"] && Join(["1e"]) == "1e " && ClientTexts("1e ") == ["1", "e"]
  {
    hide ClientTexts;
    OpenText();
    SplitText();
    assert ["1e"][1..] == [] && Join(["1e"]) == "1e" + " " + Join([]);
  }

  lemma OpenNumber(sql: string)
    requires sql == "1e"
    ensures Lex(sql, 0, 0) == Lexing([], Numeric, 0)
  {
    assert NumberEnd(sql, 2) == 2;
    assert NumberEnd(sql, 1) == 2;
  }

  lemma SplitNumber(sql: string)
    requires sql == "1e "
    ensures Lex(sql, 0, 0) == Lexing([WordOf(sql, 0, 1), WordOf(sql, 1, 2)], Standard, 3)
  {
    assert Lex(sql, 3, 3) == Lexing([], Standard, 3);
    assert Lex(sql, 2, 2) == Lex(sql, 3, 3);
    assert WordEnd(sql, 2) == 2;
    assert Lex(sql, 1, 1) == Then([WordOf(sql, 1, 2)], Lex(sql, 2, 2));
    assert NumberEnd(sql, 2) == 2;
    assert NumberEnd(sql, 1) == 2;
    assert Backtrack(sql, 0, 1) == 1;
    assert Backtrack(sql, 0, 2) == 1;
    assert Lex(sql, 0, 0) == Then([WordOf(sql, 0, 1)], Lex(sql, 1, 1));
  }

  lemma TwoWords(sql: string, log: seq<Lexeme>)
    requires sql == "1e " && log == [WordOf(sql, 0, 1), WordOf(sql, 1, 2)]
    ensures TextsOf(TokensOf(log)) == ["1", "e"]
  {
    assert sql[0..1] == "1" && sql[1..2] == "e";
    assert log[..1] == [WordOf(sql, 0, 1)] && log[..1][..0] == [];
    assert TokensOf(log[..1]) == TokensOf(log[..1][..0]) + [Token("1", 0)];
    assert TokensOf(log) == TokensOf(log[..1]) + [Token("e", 1)];
  }
}
