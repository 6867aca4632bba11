/**
 What the tokenizer computes, one lexeme at a time.  Each scanner looks ahead to where its lexeme
 ends; `Lex` puts the lexemes of a text together.  The character-level state machine in SqlTokenizer
 is proved to produce exactly this.
 */
module SqlLexer {
  import opened Options
  import opened SqlCharacters

  datatype TokenizeState =
    | Standard | SingleLineComment | MultiLineComment | QuotedIdentifier | StringLiteral
    | Keyword | Numeric | Operator | DollarQuotedString

  datatype Token = Token(text: string, offset: nat)

  /** A stretch [start, end) of the text and what the tokenizer makes of it. */
  datatype Lexeme =
    | Word(token: Token, start: nat, end: nat)
    | Comment(start: nat, end: nat)
    | StatementEnd(start: nat, end: nat)

  /** The lexemes of a text, and the state and the start of the last word at its end. */
  datatype Lexing = Lexing(lexemes: seq<Lexeme>, state: TokenizeState, lastPos: nat)

  function Then(first: seq<Lexeme>, rest: Lexing): Lexing {
    rest.(lexemes := first + rest.lexemes)
  }

  // ---------------------------------------------------------------- scanners

  function WordEnd(sql: string, i: nat): (end: nat)
    requires i <= |sql|
    ensures i <= end <= |sql|
    decreases |sql| - i
  {
    if i < |sql| && IsKeywordCharacter(sql[i]) then WordEnd(sql, i + 1) else i
  }

  function OperatorEnd(sql: string, i: nat): (end: nat)
    requires i <= |sql|
    ensures i <= end <= |sql|
    decreases |sql| - i
  {
    if i < |sql| && IsOperatorCharacter(sql[i]) then OperatorEnd(sql, i + 1) else i
  }

  /** Can the character at `i` continue a number?  This looks one character ahead and one back. */
  predicate NumberContinues(sql: string, i: nat)
    requires 0 < i < |sql|
  {
    || IsInitialNumber(sql[i])
    || (sql[i] == '_' && i + 1 < |sql| && IsInitialNumber(sql[i + 1]))
    || (IsScientific(sql[i]) && !IsScientific(sql[i - 1]))
    || ((sql[i] == '+' || sql[i] == '-') && IsScientific(sql[i - 1]))
  }

  function NumberEnd(sql: string, i: nat): (end: nat)
    requires 0 < i <= |sql|
    ensures i <= end <= |sql|
    ensures end < |sql| ==> !NumberContinues(sql, end)
    decreases |sql| - i
  {
    if i < |sql| && NumberContinues(sql, i) then NumberEnd(sql, i + 1) else i
  }

  /** A number gives back everything after its last digit or dot. */
  function Backtrack(sql: string, start: nat, i: nat): (end: nat)
    requires start < i <= |sql| && IsInitialNumber(sql[start])
    ensures start < end <= i && IsInitialNumber(sql[end - 1])
    decreases i
  {
    if IsInitialNumber(sql[i - 1]) then i else Backtrack(sql, start, i - 1)
  }

  /** The position after the quote that closes a literal; a doubled quote does not. */
  function CloseQuote(sql: string, i: nat, quote: char): (end: Option<nat>)
    requires i <= |sql|
    ensures end.Some? ==> i < end.value <= |sql|
    decreases |sql| - i
  {
    if i == |sql| then None
    else if sql[i] != quote then CloseQuote(sql, i + 1, quote)
    else if i + 1 < |sql| && sql[i + 1] == quote then CloseQuote(sql, i + 2, quote)
    else Some(i + 1)
  }

  /** The position after the newline that ends a `--` comment. */
  function LineEnd(sql: string, i: nat): (end: Option<nat>)
    requires i <= |sql|
    ensures end.Some? ==> i < end.value <= |sql|
    decreases |sql| - i
  {
    if i == |sql| then None else if IsNewline(sql[i]) then Some(i + 1) else LineEnd(sql, i + 1)
  }

  /** The position after the `*` and `/` that end a block comment. */
  function BlockEnd(sql: string, i: nat): (end: Option<nat>)
    requires i <= |sql|
    ensures end.Some? ==> i < end.value <= |sql|
    decreases |sql| - i
  {
    if i == |sql| then None
    else if sql[i] == '*' && i + 1 < |sql| && sql[i + 1] == '/' then Some(i + 2)
    else BlockEnd(sql, i + 1)
  }

  /** The '$' that ends the tag of a dollar-quoted string, if only tag characters come before it. */
  function TagEnd(sql: string, i: nat): (end: Option<nat>)
    requires i <= |sql|
    ensures end.Some? ==> i <= end.value < |sql| && sql[end.value] == '$'
    ensures end.Some? ==> forall j :: i <= j < end.value ==> sql[j] != '$'
    decreases |sql| - i
  {
    if i == |sql| then None
    else if sql[i] == '$' then Some(i)
    else if IsDollarTagCharacter(sql[i]) then TagEnd(sql, i + 1)
    else None
  }

  /** The tag of a dollar-quoted string, from `i` up to the next '$'. */
  function MarkerOf(sql: string, i: nat): (marker: string)
    requires i <= |sql| && TagEnd(sql, i).Some?
    ensures |marker| == TagEnd(sql, i).value - i
  {
    sql[i..TagEnd(sql, i).value]
  }

  /** `$marker$` stands at position `i`. */
  predicate MarkerAt(sql: string, i: nat, marker: string) {
    && i + |marker| + 2 <= |sql|
    && sql[i] == '$' && sql[i + 1..i + 1 + |marker|] == marker && sql[i + 1 + |marker|] == '$'
  }

  /** The first `$marker$` from position `i` on. */
  function MarkerClose(sql: string, i: nat, marker: string): (at: Option<nat>)
    requires i <= |sql|
    ensures at.Some? ==> i <= at.value && MarkerAt(sql, at.value, marker)
    decreases |sql| - i
  {
    if i == |sql| then None else if MarkerAt(sql, i, marker) then Some(i) else MarkerClose(sql, i + 1, marker)
  }

  /** The length of the multi-character operator at `i`, or 0. */
  function SpecialOperatorLength(sql: string, i: nat): (len: nat)
    requires i < |sql|
    ensures i + len <= |sql| && len != 1
  {
    if i + 2 < |sql| && sql[i] == '-' && sql[i + 1] == '>' && sql[i + 2] == '>' then 3
    else if i + 1 >= |sql| then 0
    else if (sql[i], sql[i + 1]) in {(':', ':'), (':', '='), ('-', '>'), ('*', '*'), ('/', '/')} then 2
    else 0
  }

  predicate HasSpecialOperatorCharacter(sql: string, start: nat, end: nat)
    requires start <= end <= |sql|
    decreases end - start
  {
    start < end && (IsSpecialOperatorCharacter(sql[start]) || HasSpecialOperatorCharacter(sql, start + 1, end))
  }

  /** The end of an operator after its trailing '+' characters have been given back. */
  function TrimPlus(sql: string, start: nat, end: nat): (r: nat)
    requires start <= end <= |sql|
    ensures start <= r <= end
    ensures forall j :: r <= j < end ==> sql[j] == '+'
    ensures start < r ==> sql[r - 1] != '+'
    decreases end
  {
    if start < end && sql[end - 1] == '+' then TrimPlus(sql, start, end - 1) else end
  }

  function OperatorTrim(sql: string, start: nat, end: nat): (r: nat)
    requires start <= end <= |sql|
    ensures start <= r <= end
  {
    if HasSpecialOperatorCharacter(sql, start, end) then end else TrimPlus(sql, start, end)
  }

  // ---------------------------------------------------------------- lexemes

  function WordOf(sql: string, start: nat, end: nat): Lexeme
    requires start <= end <= |sql|
  {
    Word(Token(sql[start..end], start), start, end)
  }

  /** One token for each of the characters in [start, end). */
  function SingleCharacters(sql: string, start: nat, end: nat): seq<Lexeme>
    requires start <= end <= |sql|
    decreases end - start
  {
    if start == end then [] else [WordOf(sql, start, start + 1)] + SingleCharacters(sql, start + 1, end)
  }

  /** An operator and the '+' characters it gives back. */
  function OperatorLexemes(sql: string, start: nat, end: nat): seq<Lexeme>
    requires start <= end <= |sql|
  {
    var trimmed := OperatorTrim(sql, start, end);
    (if start < trimmed then [WordOf(sql, start, trimmed)] else []) + SingleCharacters(sql, trimmed, end)
  }

  /** `source` with every occurrence of `from` replaced, from left to right. */
  function Replace(source: string, from: string, to: string): string
    requires from != ""
  {
    if |source| < |from| then source
    else if source[..|from|] == from then to + Replace(source[|from|..], from, to)
    else [source[0]] + Replace(source[1..], from, to)
  }

  /** A dollar-quoted string is rewritten as an ordinary string literal. */
  function Requoted(body: string): string {
    "'" + Replace(body, "'", "''") + "'"
  }

  /** A dollar-quoted string that starts at `start` and whose closing marker is at `close`. */
  function DollarWord(sql: string, start: nat, marker: string, close: nat): Lexeme
    requires start + |marker| + 2 <= close && close + |marker| + 2 <= |sql|
  {
    Word(Token(Requoted(sql[start + |marker| + 2..close]), |marker| + 2), start, close + |marker| + 2)
  }

  // ---------------------------------------------------------------- texts

  function AfterWord(sql: string, start: nat, end: nat): Lexing
    requires start < end <= |sql|
    decreases |sql| - start, 0
  {
    if end == |sql| then Lexing([], Keyword, start) else Then([WordOf(sql, start, end)], Lex(sql, end, end))
  }

  function AfterOperator(sql: string, start: nat, end: nat): Lexing
    requires start < end <= |sql|
    decreases |sql| - start, 0
  {
    if end == |sql| then Lexing([], Operator, start) else Then(OperatorLexemes(sql, start, end), Lex(sql, end, end))
  }

  function AfterNumber(sql: string, start: nat, end: nat): Lexing
    requires start < end <= |sql| && IsInitialNumber(sql[start])
    decreases |sql| - start, 0
  {
    if end == |sql| then Lexing([], Numeric, start)
    else
      var e := Backtrack(sql, start, end);
      Then([WordOf(sql, start, e)], Lex(sql, e, e))
  }

  function AfterQuote(sql: string, start: nat, state: TokenizeState, close: Option<nat>): Lexing
    requires start <= |sql| && (close.Some? ==> start < close.value <= |sql|)
    decreases |sql| - start, 0
  {
    match close
    case None => Lexing([], state, start)
    case Some(end) => Then([WordOf(sql, start, end)], Lex(sql, end, end))
  }

  function AfterComment(sql: string, start: nat, state: TokenizeState, lastPos: nat, close: Option<nat>): Lexing
    requires start <= |sql| && (close.Some? ==> start < close.value <= |sql|)
    decreases |sql| - start, 0
  {
    match close
    case None => Lexing([], state, lastPos)
    case Some(end) => Then([Comment(start, end)], Lex(sql, end, end))
  }

  function AfterDollar(sql: string, start: nat, marker: string, close: Option<nat>): Lexing
    requires start <= |sql|
    requires close.Some? ==> start + |marker| + 2 <= close.value && close.value + |marker| + 2 <= |sql|
    decreases |sql| - start, 0
  {
    match close
    case None => Lexing([], DollarQuotedString, start)
    case Some(at) => Then([DollarWord(sql, start, marker, at)], Lex(sql, at + |marker| + 2, at + |marker| + 2))
  }

  /** A '$' at `i`: a parameter, or the start of a dollar-quoted string. */
  function LexDollar(sql: string, i: nat, lastPos: nat): Lexing
    requires i < |sql| && sql[i] == '$'
    decreases |sql| - i, 1
  {
    if i + 1 == |sql| then Lexing([], Standard, lastPos)
    else
      var word := WordOf(sql, i, i + 1);
      if IsDigit(sql[i + 1]) then Then([word], Lex(sql, i + 1, lastPos))
      else
        match TagEnd(sql, i + 1)
        case None => Then([word], Lex(sql, i + 1, i))
        case Some(end) => AfterDollar(sql, i, MarkerOf(sql, i + 1), MarkerClose(sql, end + 1, MarkerOf(sql, i + 1)))
  }

  /** The lexemes of the text from position `i` on, in the standard state.  The offset stored with an
      operator is `lastPos`, which is `i` except right after a '$'. */
  function Lex(sql: string, i: nat, lastPos: nat): Lexing
    requires i <= |sql|
    decreases |sql| - i, 2
  {
    if i == |sql| then Lexing([], Standard, lastPos)
    else
      var c := sql[i];
      var next := if i + 1 < |sql| then sql[i + 1] else ' ';
      if c == '\'' then AfterQuote(sql, i, StringLiteral, CloseQuote(sql, i + 1, '\''))
      else if c == '"' then AfterQuote(sql, i, QuotedIdentifier, CloseQuote(sql, i + 1, '"'))
      else if c == ';' then Then([StatementEnd(i, i + 1)], Lex(sql, i + 1, i + 1))
      else if c == '$' then LexDollar(sql, i, lastPos)
      else if c == '-' && next == '-' then AfterComment(sql, i, SingleLineComment, lastPos, LineEnd(sql, i + 2))
      else if c == '/' && next == '*' then AfterComment(sql, i, MultiLineComment, lastPos, BlockEnd(sql, i + 2))
      else if IsSpace(c) then Lex(sql, i + 1, i + 1)
      else if SpecialOperatorLength(sql, i) > 0 then
        var end := i + SpecialOperatorLength(sql, i);
        Then([Word(Token(sql[i..end], lastPos), i, end)], Lex(sql, end, end))
      else if IsSingleByteOperator(c) then
        Then([Word(Token([c], lastPos), i, i + 1)], Lex(sql, i + 1, i + 1))
      else if IsInitialNumber(c) then AfterNumber(sql, i, NumberEnd(sql, i + 1))
      else if IsStringPrefix(c) && next == '\'' then AfterQuote(sql, i, StringLiteral, CloseQuote(sql, i + 2, '\''))
      else if IsPunctuation(c) then AfterOperator(sql, i, OperatorEnd(sql, i + 1))
      else AfterWord(sql, i, WordEnd(sql, i + 1))
  }
}
