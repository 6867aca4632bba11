/**
 The tokenizer: a state machine that looks at one character at a time, sometimes ahead, and sometimes
 gives characters back.  Its client collects the tokens of each statement.  The log, which exists only
 in the proof, keeps the stretch of text that every token came from.
 */
module SqlTokenizer {
  import opened Options
  import opened SqlCharacters
  import opened SqlLexer

  /** The tokens since the last statement end. */
  function TokensOf(log: seq<Lexeme>): seq<Token> {
    if log == [] then []
    else
      var before := log[..|log| - 1];
      match log[|log| - 1]
      case Word(token, _, _) => TokensOf(before) + [token]
      case Comment(_, _) => TokensOf(before)
      case StatementEnd(_, _) => []
  }

  /** The tokens of each finished statement. */
  function StatementsOf(log: seq<Lexeme>): seq<seq<Token>> {
    if log == [] then []
    else
      var before := log[..|log| - 1];
      if log[|log| - 1].StatementEnd? then StatementsOf(before) + [TokensOf(before)] else StatementsOf(before)
  }

  lemma LogOneMore(log: seq<Lexeme>, lexeme: Lexeme)
    ensures lexeme.Word? ==> TokensOf(log + [lexeme]) == TokensOf(log) + [lexeme.token]
    ensures lexeme.Comment? ==> TokensOf(log + [lexeme]) == TokensOf(log)
    ensures !lexeme.StatementEnd? ==> StatementsOf(log + [lexeme]) == StatementsOf(log)
    ensures lexeme.StatementEnd? ==> TokensOf(log + [lexeme]) == []
    ensures lexeme.StatementEnd? ==> StatementsOf(log + [lexeme]) == StatementsOf(log) + [TokensOf(log)]
  {
    assert (log + [lexeme])[..|log|] == log;
  }

  /** The locals of the scanning loop.  `commentStart` is where the comment being skipped began; only the
      proof uses it. */
  datatype Cursor = Cursor(state: TokenizeState, i: nat, lastPos: nat, marker: string, commentStart: nat)

  predicate NoDollar(s: string) {
    '$' !in s
  }

  ghost predicate Proper(sql: string, c: Cursor) {
    && c.lastPos <= c.i <= |sql|
    && match c.state
       case Standard => true
       case Numeric => c.lastPos < c.i && IsInitialNumber(sql[c.lastPos])
       case SingleLineComment => c.commentStart < c.i
       case MultiLineComment => c.commentStart < c.i
       case DollarQuotedString => c.lastPos + |c.marker| + 2 <= c.i && NoDollar(c.marker)
       case _ => c.lastPos < c.i
  }

  /** What is still to come. */
  ghost function Rest(sql: string, c: Cursor): Lexing
    requires Proper(sql, c)
  {
    match c.state
    case Standard => Lex(sql, c.i, c.lastPos)
    case Keyword => AfterWord(sql, c.lastPos, WordEnd(sql, c.i))
    case Operator => AfterOperator(sql, c.lastPos, OperatorEnd(sql, c.i))
    case Numeric => AfterNumber(sql, c.lastPos, NumberEnd(sql, c.i))
    case StringLiteral => AfterQuote(sql, c.lastPos, StringLiteral, CloseQuote(sql, c.i, '\''))
    case QuotedIdentifier => AfterQuote(sql, c.lastPos, QuotedIdentifier, CloseQuote(sql, c.i, '"'))
    case SingleLineComment => AfterComment(sql, c.commentStart, SingleLineComment, c.lastPos, LineEnd(sql, c.i))
    case MultiLineComment => AfterComment(sql, c.commentStart, MultiLineComment, c.lastPos, BlockEnd(sql, c.i))
    case DollarQuotedString => AfterDollar(sql, c.lastPos, c.marker, MarkerClose(sql, c.i, c.marker))
  }

  /** One turn of the loop leads from `c` to `d` and emits `emitted`.  Either the last word starts later,
      or it starts where it did and the position moves on. */
  ghost predicate Turn(sql: string, c: Cursor, d: Cursor, emitted: seq<Lexeme>) {
    && Proper(sql, c) && Proper(sql, d)
    && Rest(sql, c) == Then(emitted, Rest(sql, d))
    && (c.lastPos < d.lastPos || (c.lastPos == d.lastPos && c.i < d.i))
  }

  lemma ThenTwice(first: seq<Lexeme>, second: seq<Lexeme>, rest: Lexing)
    ensures Then(first, Then(second, rest)) == Then(first + second, rest)
  {
    assert first + (second + rest.lexemes) == first + second + rest.lexemes;
  }

  lemma ThenNothing(rest: Lexing)
    ensures Then([], rest) == rest
  {
    assert [] + rest.lexemes == rest.lexemes;
  }

  class ParserTokenizer {
    const sql: string
    var tokens: seq<Token>
    var statements: seq<seq<Token>>
    ghost var log: seq<Lexeme>

    constructor (text: string)
      ensures sql == text && Valid() && log == []
    {
      sql := text;
      tokens, statements, log := [], [], [];
    }

    ghost predicate Valid()
      reads this
    {
      tokens == TokensOf(log) && statements == StatementsOf(log)
    }

    method Emit(token: Token, ghost start: nat, ghost end: nat)
      requires Valid()
      modifies this`tokens, this`log
      ensures Valid() && log == old(log) + [Word(token, start, end)]
    {
      LogOneMore(log, Word(token, start, end));
      tokens := tokens + [token];
      log := log + [Word(token, start, end)];
    }

    method PushToken(start: nat, end: nat)
      requires Valid() && start <= |sql| && end <= |sql|
      modifies this`tokens, this`log
      ensures Valid() && log == old(log) + if start < end then [WordOf(sql, start, end)] else []
    {
      if start >= end {
        return;
      }
      Emit(Token(sql[start..end], start), start, end);
    }

    method OnStatementEnd(pos: nat)
      requires Valid()
      modifies this
      ensures Valid() && log == old(log) + [StatementEnd(pos, pos + 1)]
    {
      LogOneMore(log, StatementEnd(pos, pos + 1));
      statements := statements + [tokens];
      tokens := [];
      log := log + [StatementEnd(pos, pos + 1)];
    }

    method OnLastToken(lastWord: string, lastPos: nat)
      modifies this`tokens
      ensures tokens == old(tokens) + if lastWord == "" then [] else [Token(lastWord, lastPos)]
    {
      if lastWord == "" {
        return;
      }
      tokens := tokens + [Token(lastWord, lastPos)];
    }

    // -------------------------------------------------------------- the cases of the loop

    /** KEYWORD: the word ends before the first character that cannot continue it. */
    method KeywordStep(c: Cursor) returns (d: Cursor, ghost emitted: seq<Lexeme>)
      requires Valid() && Proper(sql, c) && c.state == Keyword && c.i < |sql|
      modifies this`tokens, this`log
      ensures Valid() && log == old(log) + emitted && Turn(sql, c, d, emitted)
    {
      hide Rest, Turn;
      KeywordTurn(sql, c);
      if IsKeywordCharacter(sql[c.i]) {
        return c.(i := c.i + 1), [];
      }
      PushToken(c.lastPos, c.i);
      emitted := [WordOf(sql, c.lastPos, c.i)];
      d := c.(state := Standard, lastPos := c.i);  // one step back, and the loop's step forward
    }

    method OperatorStep(c: Cursor) returns (d: Cursor, ghost emitted: seq<Lexeme>)
      requires Valid() && Proper(sql, c) && c.state == Operator && c.i < |sql|
      modifies this`tokens, this`log
      ensures Valid() && log == old(log) + emitted && Turn(sql, c, d, emitted)
    {
      hide Rest, Turn, OperatorLexemes;
      OperatorTurn(sql, c);
      if IsOperatorCharacter(sql[c.i]) {
        return c.(i := c.i + 1), [];
      }
      PushOperator(c.lastPos, c.i);
      emitted := OperatorLexemes(sql, c.lastPos, c.i);
      d := c.(state := Standard, lastPos := c.i);  // one step back, and the loop's step forward
    }

    /** An operator cannot end in '+' unless it has one of the special characters. */
    method PushOperator(start: nat, end: nat)
      requires Valid() && start < end <= |sql|
      modifies this`tokens, this`log
      ensures Valid() && log == old(log) + OperatorLexemes(sql, start, end)
    {
      var endPos := end;
      var hasSpecial := false;
      var j := start;
      while j < endPos
        invariant start <= j <= endPos == end && !hasSpecial
        invariant HasSpecialOperatorCharacter(sql, start, end) == HasSpecialOperatorCharacter(sql, j, end)
      {
        if IsSpecialOperatorCharacter(sql[j]) {
          hasSpecial := true;
          break;
        }
        j := j + 1;
      }
      if !hasSpecial {
        while endPos > start && sql[endPos - 1] == '+'
          invariant start <= endPos <= end
          invariant TrimPlus(sql, start, end) == TrimPlus(sql, start, endPos)
        {
          endPos := endPos - 1;
        }
      }
      PushToken(start, endPos);
      PushCharacters(endPos, end);
    }

    /** Pushes each character of [start, end) as a token of its own. */
    method PushCharacters(start: nat, end: nat)
      requires Valid() && start <= end <= |sql|
      modifies this`tokens, this`log
      ensures Valid() && log == old(log) + SingleCharacters(sql, start, end)
    {
      var j := start;
      while j < end
        invariant start <= j <= end && Valid()
        invariant log + SingleCharacters(sql, j, end) == old(log) + SingleCharacters(sql, start, end)
      {
        assert [sql[j]] == sql[j..j + 1];
        ghost var later := SingleCharacters(sql, j + 1, end);
        assert log + ([WordOf(sql, j, j + 1)] + later) == log + [WordOf(sql, j, j + 1)] + later;
        Emit(Token([sql[j]], j), j, j + 1);
        j := j + 1;
      }
      assert log + [] == log;
    }

    /** NUMERIC: the number ends before the first character that cannot continue it, and gives back
        everything after its last digit or dot. */
    method NumericStep(c: Cursor) returns (d: Cursor, ghost emitted: seq<Lexeme>)
      requires Valid() && Proper(sql, c) && c.state == Numeric && c.i < |sql|
      modifies this`tokens, this`log
      ensures Valid() && log == old(log) + emitted && Turn(sql, c, d, emitted)
    {
      hide Rest, Turn, NumberContinues;
      NumericTurn(sql, c);
      var continues := ContinuesNumber(c.i);
      if continues {
        return c.(i := c.i + 1), [];
      }
      var i := GiveBack(c.lastPos, c.i);
      PushToken(c.lastPos, i);
      emitted := [WordOf(sql, c.lastPos, i)];
      d := c.(state := Standard, lastPos := i, i := i);
    }

    /** The checks of the NUMERIC case, in its order. */
    method ContinuesNumber(i: nat) returns (continues: bool)
      requires 0 < i < |sql|
      ensures continues <==> NumberContinues(sql, i)
      ensures continues <==>
                || '0' <= sql[i] <= '9' || sql[i] == '.'
                || (sql[i] == '_' && i + 1 < |sql| && ('0' <= sql[i + 1] <= '9' || sql[i + 1] == '.'))
                || (sql[i] in {'e', 'E'} && sql[i - 1] !in {'e', 'E'})
                || (sql[i] in {'+', '-'} && sql[i - 1] in {'e', 'E'})
    {
      var ch := sql[i];
      if IsInitialNumber(ch) {
        return true;
      }
      if ch == '_' && i + 1 < |sql| && IsInitialNumber(sql[i + 1]) {
        return true;
      }
      if IsScientific(ch) {
        if !IsScientific(sql[i - 1]) {
          return true;
        }
      }
      if ch == '+' || ch == '-' {
        if IsScientific(sql[i - 1]) {
          return true;
        }
      }
      return false;
    }

    /** Moves back to just after the last digit or dot. */
    method GiveBack(start: nat, end: nat) returns (i: nat)
      requires start < end <= |sql| && IsInitialNumber(sql[start])
      ensures i == Backtrack(sql, start, end)
    {
      i := end;
      while !IsInitialNumber(sql[i - 1])
        invariant start < i <= end
        invariant Backtrack(sql, start, end) == Backtrack(sql, start, i)
        decreases i
      {
        i := i - 1;
      }
    }

    /** A literal in quotes: a doubled quote is skipped, a single one closes it. */
    method QuotedStep(c: Cursor, quote: char) returns (d: Cursor, ghost emitted: seq<Lexeme>)
      requires Valid() && Proper(sql, c) && c.i < |sql|
      requires (c.state == StringLiteral && quote == '\'') || (c.state == QuotedIdentifier && quote == '"')
      modifies this`tokens, this`log
      ensures Valid() && log == old(log) + emitted && Turn(sql, c, d, emitted)
    {
      hide Rest, Turn, WordOf;
      QuoteTurn(sql, c, quote);
      d, emitted := c, [];
      if sql[c.i] == quote {
        if c.i + 1 < |sql| && sql[c.i + 1] == quote {
          d := d.(i := d.i + 1);
        } else {
          PushToken(c.lastPos, c.i + 1);
          emitted := [WordOf(sql, c.lastPos, c.i + 1)];
          d := d.(lastPos := c.i + 1, state := Standard);
        }
      }
      d := d.(i := d.i + 1);
    }

    method LineCommentStep(c: Cursor) returns (d: Cursor, ghost emitted: seq<Lexeme>)
      requires Valid() && Proper(sql, c) && c.i < |sql| && c.state == SingleLineComment
      modifies this`log
      ensures Valid() && log == old(log) + emitted && Turn(sql, c, d, emitted)
    {
      hide Rest, Turn;
      LineTurn(sql, c);
      if !IsNewline(sql[c.i]) {
        return c.(i := c.i + 1), [];
      }
      LogComment(c.commentStart, c.i + 1);
      emitted := [Comment(c.commentStart, c.i + 1)];
      d := c.(i := c.i + 1, lastPos := c.i + 1, state := Standard);
    }

    method BlockCommentStep(c: Cursor) returns (d: Cursor, ghost emitted: seq<Lexeme>)
      requires Valid() && Proper(sql, c) && c.i < |sql| && c.state == MultiLineComment
      modifies this`log
      ensures Valid() && log == old(log) + emitted && Turn(sql, c, d, emitted)
    {
      hide Rest, Turn;
      BlockTurn(sql, c);
      if !(sql[c.i] == '*' && c.i + 1 < |sql| && sql[c.i + 1] == '/') {
        return c.(i := c.i + 1), [];
      }
      LogComment(c.commentStart, c.i + 2);
      emitted := [Comment(c.commentStart, c.i + 2)];
      d := c.(i := c.i + 2, lastPos := c.i + 2, state := Standard);
    }

    /** Notes a skipped comment; nothing is pushed. */
    ghost method LogComment(start: nat, end: nat)
      requires Valid()
      modifies this`log
      ensures Valid() && log == old(log) + [Comment(start, end)]
    {
      LogOneMore(log, Comment(start, end));
      log := log + [Comment(start, end)];
    }

    /** DOLLAR_QUOTED_STRING: only a '$' that begins `$marker$` gets out. */
    method DollarQuotedStep(c: Cursor) returns (d: Cursor, ghost emitted: seq<Lexeme>)
      requires Valid() && Proper(sql, c) && c.state == DollarQuotedString && c.i < |sql|
      modifies this`tokens, this`log
      ensures Valid() && log == old(log) + emitted && Turn(sql, c, d, emitted)
    {
      hide Rest, Turn;
      DollarTurn(sql, c);
      d, emitted := c.(i := c.i + 1), [];
      if sql[c.i] != '$' || c.i + 1 >= |sql| {
        return;
      }
      var start := c.i + 1;
      var end := start;
      while end < |sql| && sql[end] != '$'
        invariant start <= end <= |sql|
        invariant forall j :: start <= j < end ==> sql[j] != '$'
      {
        end := end + 1;
      }
      OnlyNextDollarCloses(sql, c.i, c.marker, end);
      if end >= |sql| || end - start != |c.marker| || sql[start..end] != c.marker {
        return;
      }
      EmitDollarQuoted(c, end);
      emitted := [DollarWord(sql, c.lastPos, c.marker, c.i)];
      d := c.(state := Standard, i := end + 1, lastPos := end + 1, marker := "");
    }

    /** STANDARD: decides by the first character, and sometimes the next one, what begins here. */
    method StandardStep(c: Cursor) returns (d: Cursor, ghost emitted: seq<Lexeme>)
      requires Valid() && Proper(sql, c) && c.state == Standard && c.i < |sql|
      modifies this
      ensures Valid() && log == old(log) + emitted && Turn(sql, c, d, emitted)
    {
      hide Rest, Turn;
      StandardTurn(sql, c);
      var ch := sql[c.i];
      emitted := [];
      if ch == '\'' {
        return c.(state := StringLiteral, lastPos := c.i, i := c.i + 1), [];
      }
      if ch == '"' {
        return c.(state := QuotedIdentifier, lastPos := c.i, i := c.i + 1), [];
      }
      if ch == ';' {
        OnStatementEnd(c.i);
        return c.(lastPos := c.i + 1, i := c.i + 1), [StatementEnd(c.i, c.i + 1)];
      }
      if ch == '$' {
        d, emitted := DollarStep(c);
        return;
      }
      if ch == '-' && c.i + 1 < |sql| && sql[c.i + 1] == '-' {
        return c.(state := SingleLineComment, commentStart := c.i, i := c.i + 2), [];
      }
      if ch == '/' && c.i + 1 < |sql| && sql[c.i + 1] == '*' {
        return c.(state := MultiLineComment, commentStart := c.i, i := c.i + 2), [];
      }
      if IsSpace(ch) {
        return c.(lastPos := c.i + 1, i := c.i + 1), [];
      }
      d, emitted := StandardWordStep(c);
    }

    /** What is left of STANDARD: operators, numbers, prefixed literals and words. */
    method StandardWordStep(c: Cursor) returns (d: Cursor, ghost emitted: seq<Lexeme>)
      requires Valid() && Proper(sql, c) && c.state == Standard && c.i < |sql| && BeginsWord(sql, c.i)
      modifies this`tokens, this`log
      ensures Valid() && log == old(log) + emitted && Turn(sql, c, d, emitted)
    {
      hide Rest, Turn;
      StandardWordTurn(sql, c);
      var ch := sql[c.i];
      emitted := [];
      var opLen := IsSpecialOperator(c.i);
      if opLen > 0 {
        Emit(Token(sql[c.i..c.i + opLen], c.lastPos), c.i, c.i + opLen);
        return c.(i := c.i + opLen, lastPos := c.i + opLen), [Word(Token(sql[c.i..c.i + opLen], c.lastPos), c.i, c.i + opLen)];
      }
      if IsSingleByteOperator(ch) {
        Emit(Token([ch], c.lastPos), c.i, c.i + 1);
        return c.(i := c.i + 1, lastPos := c.i + 1), [Word(Token([ch], c.lastPos), c.i, c.i + 1)];
      }
      if IsInitialNumber(ch) {
        return c.(state := Numeric, lastPos := c.i, i := c.i + 1), [];
      }
      if IsStringPrefix(ch) {
        if c.i + 1 < |sql| && sql[c.i + 1] == '\'' {
          return c.(state := StringLiteral, lastPos := c.i, i := c.i + 2), [];
        }
      }
      if IsPunctuation(ch) {
        return c.(state := Operator, lastPos := c.i, i := c.i + 1), [];
      }
      return c.(state := Keyword, lastPos := c.i, i := c.i + 1), [];
    }

    /** The length of the multi-character operator at `pos`, or 0. */
    method IsSpecialOperator(pos: nat) returns (opLen: nat)
      requires pos < |sql|
      ensures opLen == SpecialOperatorLength(sql, pos)
    {
      if pos + 2 < |sql| {
        if sql[pos..pos + 3] == "->>" {
          return 3;
        }
      }
      if pos + 1 >= |sql| {
        return 0;
      }
      var two := sql[pos..pos + 2];
      if two == "::" || two == ":=" || two == "->" || two == "**" || two == "//" {
        return 2;
      }
      return 0;
    }

    /** A '$' in STANDARD. */
    method DollarStep(c: Cursor) returns (d: Cursor, ghost emitted: seq<Lexeme>)
      requires Valid() && Proper(sql, c) && c.state == Standard && c.i < |sql| && sql[c.i] == '$'
      modifies this`tokens, this`log
      ensures Valid() && log == old(log) + emitted && Turn(sql, c, d, emitted)
    {
      hide Rest, Turn, TagEnd;
      DollarStartTurn(sql, c);
      if c.i + 1 >= |sql| {
        return c.(i := c.i + 1), [];
      }
      assert [sql[c.i]] == sql[c.i..c.i + 1];
      if IsDigit(sql[c.i + 1]) {
        Emit(Token([sql[c.i]], c.i), c.i, c.i + 1);
        return c.(i := c.i + 1), [WordOf(sql, c.i, c.i + 1)];
      }
      var nextDollar := FindTagEnd(c.i + 1);
      if nextDollar == 0 {
        Emit(Token([sql[c.i]], c.i), c.i, c.i + 1);
        return c.(lastPos := c.i, i := c.i + 1), [WordOf(sql, c.i, c.i + 1)];
      }
      d := c.(state := DollarQuotedString, lastPos := c.i, marker := sql[c.i + 1..nextDollar], i := nextDollar + 1);
      emitted := [];
    }

    /** Scans tag characters up to the next '$'; 0 stands for none. */
    method FindTagEnd(start: nat) returns (nextDollar: nat)
      requires 0 < start <= |sql|
      ensures match TagEnd(sql, start)
              case None => nextDollar == 0
              case Some(end) => nextDollar == end > 0
    {
      nextDollar := 0;
      var idx := start;
      while idx < |sql|
        invariant start <= idx <= |sql|
        invariant TagEnd(sql, start) == TagEnd(sql, idx)
      {
        if sql[idx] == '$' {
          return idx;
        }
        if !IsDollarTagCharacter(sql[idx]) {
          return 0;
        }
        idx := idx + 1;
      }
    }

    /** One turn of the loop. */
    method Step(c: Cursor) returns (d: Cursor, ghost emitted: seq<Lexeme>)
      requires Valid() && Proper(sql, c) && c.i < |sql|
      modifies this
      ensures Valid() && log == old(log) + emitted && Turn(sql, c, d, emitted)
    {
      hide Rest, Turn;
      match c.state {
        case Standard => d, emitted := StandardStep(c);
        case Numeric => d, emitted := NumericStep(c);
        case Operator => d, emitted := OperatorStep(c);
        case Keyword => d, emitted := KeywordStep(c);
        case StringLiteral => d, emitted := QuotedStep(c, '\'');
        case QuotedIdentifier => d, emitted := QuotedStep(c, '"');
        case SingleLineComment => d, emitted := LineCommentStep(c);
        case MultiLineComment => d, emitted := BlockCommentStep(c);
        case DollarQuotedString => d, emitted := DollarQuotedStep(c);
      }
    }

    /** Tokenizes the text.  The answer is false when it ends inside a comment or a dollar-quoted string. */
    method TokenizeInput() returns (allowComplete: bool)
      requires Valid() && log == []
      modifies this
      ensures var lexing := Lex(sql, 0, 0);
              && log == lexing.lexemes && statements == StatementsOf(log)
              && allowComplete == !EndsInside(lexing.state)
              && tokens == TokensOf(log) + if allowComplete then LastWord(sql, lexing) else []
      ensures allowComplete <==> Lex(sql, 0, 0).state !in {SingleLineComment, MultiLineComment, DollarQuotedString}
      ensures var lexing := Lex(sql, 0, 0);
              var last := if lexing.state == StringLiteral then lexing.lastPos + 1 else lexing.lastPos;
              tokens == TokensOf(log) + if allowComplete && last < |sql| then [Token(sql[last..], last)] else []
    {
      hide Lex, TokensOf, StatementsOf;
      var c := Cursor(Standard, 0, 0, "", 0);
      ThenNothing(Lex(sql, 0, 0));
      while c.i < |sql|
        invariant Valid() && Proper(sql, c)
        invariant Lex(sql, 0, 0) == Then(log, Rest(sql, c))
        decreases |sql| - c.lastPos, |sql| - c.i
      {
        ghost var before, emitted := log, [];
        ghost var was := c;
        c, emitted := Step(c);
        ThenTwice(before, emitted, Rest(sql, c));
      }
      EndOfText(sql, c);
      assert log + [] == log;
      var lastPos := c.lastPos;
      if c.state == StringLiteral {
        lastPos := lastPos + 1;
      } else if EndsInside(c.state) {
        return false;
      }
      OnLastToken(sql[lastPos..], lastPos);
      return true;
    }

    /** Rewrites the dollar-quoted string whose closing marker is at the cursor and ends at `end`. */
    method EmitDollarQuoted(c: Cursor, end: nat)
      requires Valid() && Proper(sql, c) && c.state == DollarQuotedString
      requires end == c.i + 1 + |c.marker| < |sql|
      modifies this`tokens, this`log
      ensures Valid() && log == old(log) + [DollarWord(sql, c.lastPos, c.marker, c.i)]
    {
      var fullMarkerLen := |c.marker| + 2;
      var quoted := sql[c.lastPos..end + 1];
      var content := quoted[fullMarkerLen..|quoted| - fullMarkerLen];
      SliceOfSlice(sql, c.lastPos, end + 1, fullMarkerLen, |quoted| - fullMarkerLen);
      content := Replace(content, "'", "''");
      Emit(Token("'" + content + "'", fullMarkerLen), c.lastPos, end + 1);
    }
  }

  predicate EndsInside(state: TokenizeState) {
    state == SingleLineComment || state == MultiLineComment || state == DollarQuotedString
  }

  /** The word at the end of the text, which the client appends when it is not empty.  Of an open string
      literal the first character is dropped. */
  function LastWord(sql: string, lexing: Lexing): seq<Token> {
    var start := if lexing.state == StringLiteral then lexing.lastPos + 1 else lexing.lastPos;
    if start < |sql| then [Token(sql[start..], start)] else []
  }

  /** At the end of the text nothing is to come but the final state. */
  lemma EndOfText(sql: string, c: Cursor)
    requires Proper(sql, c) && c.i == |sql|
    ensures Rest(sql, c) == Lexing([], c.state, c.lastPos)
  {
  }

  lemma SliceOfSlice(s: string, a: nat, b: nat, m: nat, n: nat)
    requires a <= b <= |s| && m <= n <= b - a
    ensures s[a..b][m..n] == s[a + m..a + n]
  {
    forall k | 0 <= k < n - m
      ensures s[a..b][m..n][k] == s[a + m..a + n][k]
    {
    }
  }

  lemma KeywordTurn(sql: string, c: Cursor)
    requires Proper(sql, c) && c.state == Keyword && c.i < |sql|
    ensures if IsKeywordCharacter(sql[c.i])
            then Turn(sql, c, c.(i := c.i + 1), [])
            else Turn(sql, c, c.(state := Standard, lastPos := c.i), [WordOf(sql, c.lastPos, c.i)])
  {
    ThenNothing(Rest(sql, c));
    hide Lex, WordOf;
  }

  lemma OperatorTurn(sql: string, c: Cursor)
    requires Proper(sql, c) && c.state == Operator && c.i < |sql|
    ensures if IsOperatorCharacter(sql[c.i])
            then Turn(sql, c, c.(i := c.i + 1), [])
            else Turn(sql, c, c.(state := Standard, lastPos := c.i), OperatorLexemes(sql, c.lastPos, c.i))
  {
    ThenNothing(Rest(sql, c));
    hide Lex, OperatorLexemes;
  }

  lemma NumericTurn(sql: string, c: Cursor)
    requires Proper(sql, c) && c.state == Numeric && c.i < |sql|
    ensures if NumberContinues(sql, c.i)
            then Turn(sql, c, c.(i := c.i + 1), [])
            else
              var end := Backtrack(sql, c.lastPos, c.i);
              Turn(sql, c, c.(state := Standard, lastPos := end, i := end), [WordOf(sql, c.lastPos, end)])
  {
    hide Lex, WordOf, NumberContinues, Backtrack, Then;
    if NumberContinues(sql, c.i) {
      ThenNothing(Rest(sql, c));
    } else {
      assert NumberEnd(sql, c.i) == c.i;
    }
  }

  lemma QuoteTurn(sql: string, c: Cursor, quote: char)
    requires Proper(sql, c) && c.i < |sql|
    requires (c.state == StringLiteral && quote == '\'') || (c.state == QuotedIdentifier && quote == '"')
    ensures if sql[c.i] != quote
            then Turn(sql, c, c.(i := c.i + 1), [])
            else if c.i + 1 < |sql| && sql[c.i + 1] == quote
            then Turn(sql, c, c.(i := c.i + 2), [])
            else Turn(sql, c, c.(state := Standard, i := c.i + 1, lastPos := c.i + 1), [WordOf(sql, c.lastPos, c.i + 1)])
  {
    ThenNothing(Rest(sql, c));
    hide Lex, WordOf;
  }

  /** None of the cases that STANDARD looks at first. */
  predicate BeginsWord(sql: string, i: nat)
    requires i < |sql|
  {
    var c := sql[i];
    && c != '\'' && c != '"' && c != ';' && c != '$' && !IsSpace(c)
    && !(c == '-' && i + 1 < |sql| && sql[i + 1] == '-')
    && !(c == '/' && i + 1 < |sql| && sql[i + 1] == '*')
  }

  lemma StandardTurn(sql: string, c: Cursor)
    requires Proper(sql, c) && c.state == Standard && c.i < |sql|
    ensures var ch, next := sql[c.i], if c.i + 1 < |sql| then sql[c.i + 1] else ' ';
            && (ch == '\'' ==> Turn(sql, c, c.(state := StringLiteral, lastPos := c.i, i := c.i + 1), []))
            && (ch == '"' ==> Turn(sql, c, c.(state := QuotedIdentifier, lastPos := c.i, i := c.i + 1), []))
            && (ch == ';' ==> Turn(sql, c, c.(lastPos := c.i + 1, i := c.i + 1), [StatementEnd(c.i, c.i + 1)]))
            && (ch == '-' && next == '-' ==>
                  Turn(sql, c, c.(state := SingleLineComment, commentStart := c.i, i := c.i + 2), []))
            && (ch == '/' && next == '*' ==>
                  Turn(sql, c, c.(state := MultiLineComment, commentStart := c.i, i := c.i + 2), []))
            && (IsSpace(ch) ==> Turn(sql, c, c.(lastPos := c.i + 1, i := c.i + 1), []))
  {
    ThenNothing(Rest(sql, c));
  }

  lemma StandardWordTurn(sql: string, c: Cursor)
    requires Proper(sql, c) && c.state == Standard && c.i < |sql| && BeginsWord(sql, c.i)
    ensures var ch, end := sql[c.i], c.i + SpecialOperatorLength(sql, c.i);
            if end > c.i then Turn(sql, c, c.(i := end, lastPos := end), [Word(Token(sql[c.i..end], c.lastPos), c.i, end)])
            else if IsSingleByteOperator(ch) then
              Turn(sql, c, c.(i := c.i + 1, lastPos := c.i + 1), [Word(Token([ch], c.lastPos), c.i, c.i + 1)])
            else if IsInitialNumber(ch) then Turn(sql, c, c.(state := Numeric, lastPos := c.i, i := c.i + 1), [])
            else if IsStringPrefix(ch) && c.i + 1 < |sql| && sql[c.i + 1] == '\'' then
              Turn(sql, c, c.(state := StringLiteral, lastPos := c.i, i := c.i + 2), [])
            else if IsPunctuation(ch) then Turn(sql, c, c.(state := Operator, lastPos := c.i, i := c.i + 1), [])
            else Turn(sql, c, c.(state := Keyword, lastPos := c.i, i := c.i + 1), [])
  {
    ThenNothing(Rest(sql, c));
  }

  lemma DollarStartTurn(sql: string, c: Cursor)
    requires Proper(sql, c) && c.state == Standard && c.i < |sql| && sql[c.i] == '$'
    ensures if c.i + 1 == |sql| then Turn(sql, c, c.(i := c.i + 1), [])
            else if IsDigit(sql[c.i + 1]) then Turn(sql, c, c.(i := c.i + 1), [WordOf(sql, c.i, c.i + 1)])
            else
              match TagEnd(sql, c.i + 1)
              case None => Turn(sql, c, c.(lastPos := c.i, i := c.i + 1), [WordOf(sql, c.i, c.i + 1)])
              case Some(end) =>
                Turn(sql, c, c.(state := DollarQuotedString, lastPos := c.i, marker := MarkerOf(sql, c.i + 1), i := end + 1), [])
  {
    hide Turn, Rest, TagEnd, Lex, Proper;
    if c.i + 1 == |sql| {
      DollarAtEndTurn(sql, c);
    } else if IsDigit(sql[c.i + 1]) {
      DollarDigitTurn(sql, c);
    } else {
      DollarTagTurn(sql, c);
    }
  }

  lemma DollarAtEndTurn(sql: string, c: Cursor)
    requires Proper(sql, c) && c.state == Standard && c.i + 1 == |sql| && sql[c.i] == '$'
    ensures Turn(sql, c, c.(i := c.i + 1), [])
  {
    hide Lex;
    LexOfDollar(sql, c.i, c.lastPos);
    ThenNothing(Rest(sql, c));
  }

  lemma DollarDigitTurn(sql: string, c: Cursor)
    requires Proper(sql, c) && c.state == Standard && c.i + 1 < |sql| && sql[c.i] == '$' && IsDigit(sql[c.i + 1])
    ensures Turn(sql, c, c.(i := c.i + 1), [WordOf(sql, c.i, c.i + 1)])
  {
    hide Lex, WordOf, Then;
    LexOfDollar(sql, c.i, c.lastPos);
  }

  lemma DollarTagTurn(sql: string, c: Cursor)
    requires Proper(sql, c) && c.state == Standard && c.i + 1 < |sql| && sql[c.i] == '$' && !IsDigit(sql[c.i + 1])
    ensures match TagEnd(sql, c.i + 1)
            case None => Turn(sql, c, c.(lastPos := c.i, i := c.i + 1), [WordOf(sql, c.i, c.i + 1)])
            case Some(end) =>
              Turn(sql, c, c.(state := DollarQuotedString, lastPos := c.i, marker := MarkerOf(sql, c.i + 1), i := end + 1), [])
  {
    hide Lex, WordOf, Then, TagEnd, AfterDollar, MarkerClose, LexDollar;
    match TagEnd(sql, c.i + 1)
    case None =>
      LexOfTag(sql, c.i, c.lastPos);
    case Some(end) =>
      TagHasNoDollar(sql, c.i + 1);
      DollarOpens(sql, c, end);
  }

  lemma DollarOpens(sql: string, c: Cursor, end: nat)
    requires Proper(sql, c) && c.state == Standard && c.i + 1 < |sql| && sql[c.i] == '$' && !IsDigit(sql[c.i + 1])
    requires TagEnd(sql, c.i + 1) == Some(end) && NoDollar(MarkerOf(sql, c.i + 1))
    ensures Turn(sql, c, c.(state := DollarQuotedString, lastPos := c.i, marker := MarkerOf(sql, c.i + 1), i := end + 1), [])
  {
    hide Rest, NoDollar, MarkerAt, MarkerClose, MarkerOf, TagEnd, AfterDollar, Lex, Turn;
    var d := c.(state := DollarQuotedString, lastPos := c.i, marker := MarkerOf(sql, c.i + 1), i := end + 1);
    assert Proper(sql, d);
    RestOfStandard(sql, c);
    RestOfDollar(sql, d);
    LexOfTag(sql, c.i, c.lastPos);
    SilentTurn(sql, c, d);
  }

  lemma RestOfStandard(sql: string, c: Cursor)
    requires Proper(sql, c) && c.state == Standard
    ensures Rest(sql, c) == Lex(sql, c.i, c.lastPos)
  {
    hide Lex;
  }

  lemma RestOfDollar(sql: string, c: Cursor)
    requires Proper(sql, c) && c.state == DollarQuotedString
    ensures Rest(sql, c) == AfterDollar(sql, c.lastPos, c.marker, MarkerClose(sql, c.i, c.marker))
  {
    hide AfterDollar, MarkerClose;
  }

  /** A turn that emits nothing. */
  lemma SilentTurn(sql: string, c: Cursor, d: Cursor)
    requires Proper(sql, c) && Proper(sql, d) && Rest(sql, c) == Rest(sql, d)
    requires c.lastPos <= d.lastPos && c.i < d.i
    ensures Turn(sql, c, d, [])
  {
    ThenNothing(Rest(sql, d));
  }

  lemma LexOfTag(sql: string, i: nat, lastPos: nat)
    requires i + 1 < |sql| && sql[i] == '$' && !IsDigit(sql[i + 1])
    ensures match TagEnd(sql, i + 1)
            case None => Lex(sql, i, lastPos) == Then([WordOf(sql, i, i + 1)], Lex(sql, i + 1, i))
            case Some(end) =>
              Lex(sql, i, lastPos) == AfterDollar(sql, i, MarkerOf(sql, i + 1), MarkerClose(sql, end + 1, MarkerOf(sql, i + 1)))
  {
    hide Lex, WordOf, TagEnd, AfterDollar, MarkerClose;
    LexOfDollar(sql, i, lastPos);
  }

  lemma LexOfDollar(sql: string, i: nat, lastPos: nat)
    requires i < |sql| && sql[i] == '$'
    ensures Lex(sql, i, lastPos) == LexDollar(sql, i, lastPos)
    ensures i + 1 == |sql| ==> Lex(sql, i + 1, lastPos) == Lexing([], Standard, lastPos)
  {
    hide LexDollar;
  }

  lemma TagHasNoDollar(sql: string, i: nat)
    requires i <= |sql| && TagEnd(sql, i).Some?
    ensures NoDollar(MarkerOf(sql, i))
  {
    hide TagEnd;
    var tag := sql[i..TagEnd(sql, i).value];
    assert forall j :: 0 <= j < |tag| ==> tag[j] == sql[i + j];
  }

  lemma LineTurn(sql: string, c: Cursor)
    requires Proper(sql, c) && c.state == SingleLineComment && c.i < |sql|
    ensures if IsNewline(sql[c.i])
            then Turn(sql, c, c.(i := c.i + 1, lastPos := c.i + 1, state := Standard), [Comment(c.commentStart, c.i + 1)])
            else Turn(sql, c, c.(i := c.i + 1), [])
  {
    ThenNothing(Rest(sql, c));
    hide Lex;
  }

  lemma BlockTurn(sql: string, c: Cursor)
    requires Proper(sql, c) && c.state == MultiLineComment && c.i < |sql|
    ensures if sql[c.i] == '*' && c.i + 1 < |sql| && sql[c.i + 1] == '/'
            then Turn(sql, c, c.(i := c.i + 2, lastPos := c.i + 2, state := Standard), [Comment(c.commentStart, c.i + 2)])
            else Turn(sql, c, c.(i := c.i + 1), [])
  {
    ThenNothing(Rest(sql, c));
    hide Lex;
  }

  lemma DollarTurn(sql: string, c: Cursor)
    requires Proper(sql, c) && c.state == DollarQuotedString && c.i < |sql|
    ensures if MarkerAt(sql, c.i, c.marker)
            then
              var end := c.i + |c.marker| + 2;
              Turn(sql, c, c.(state := Standard, i := end, lastPos := end, marker := ""),
                   [DollarWord(sql, c.lastPos, c.marker, c.i)])
            else Turn(sql, c, c.(i := c.i + 1), [])
  {
    ThenNothing(Rest(sql, c));
    hide Lex, DollarWord;
  }

  /** A marker contains no '$', so only the next '$' can end a closing marker that begins at `i`. */
  lemma OnlyNextDollarCloses(sql: string, i: nat, marker: string, end: nat)
    requires i < end <= |sql| && sql[i] == '$' && NoDollar(marker)
    requires forall j :: i < j < end ==> sql[j] != '$'
    requires end == |sql| || sql[end] == '$'
    ensures MarkerAt(sql, i, marker) <==> end < |sql| && sql[i + 1..end] == marker
  {
    var close := i + 1 + |marker|;
    if close < |sql| {
      assert end < close ==> sql[i + 1..close][end - i - 1] == '$';
      assert sql[i + 1..close] == marker ==> close <= end;
    }
  }
}
