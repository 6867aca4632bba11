/**
 Every character of the text is accounted for: the lexemes lie one after the other, and what is between
 them is white space.
 */
module SqlCoverage {
  import opened Options
  import opened SqlCharacters
  import opened SqlLexer
  import opened SqlTokenizer

  ghost predicate AllSpace(sql: string, from: nat, to: nat) {
    from <= to <= |sql| && forall j :: from <= j < to ==> IsSpace(sql[j])
  }

  /** `close` is the first position from `i` on at which the marker stands. */
  ghost predicate FirstMarker(sql: string, i: nat, marker: string, close: nat) {
    i <= close && MarkerAt(sql, close, marker) && forall j :: i <= j < close ==> !MarkerAt(sql, j, marker)
  }

  /** The stretch is a dollar-quoted string: an opening marker, a body up to the first closing marker, and
      that marker.  Its token is the body as an ordinary literal. */
  ghost predicate IsDollarQuoted(sql: string, lexeme: Lexeme, marker: string)
    requires lexeme.Word?
  {
    && MarkerAt(sql, lexeme.start, marker) && NoDollar(marker)
    && lexeme.start + 2 * (|marker| + 2) <= lexeme.end
    && var bodyStart, close := lexeme.start + |marker| + 2, lexeme.end - |marker| - 2;
       && FirstMarker(sql, bodyStart, marker, close)
       && lexeme.token.text == Requoted(sql[bodyStart..close])
  }

  /** From two dashes to the first newline after them. */
  ghost predicate IsLineComment(sql: string, start: nat, end: nat) {
    && start + 2 < end <= |sql| && sql[start] == sql[start + 1] == '-' && IsNewline(sql[end - 1])
    && forall j :: start + 2 <= j < end - 1 ==> !IsNewline(sql[j])
  }

  ghost predicate ClosesBlock(sql: string, j: nat) {
    j + 1 < |sql| && sql[j] == '*' && sql[j + 1] == '/'
  }

  /** From a slash and a star to the first star and slash after them. */
  ghost predicate IsBlockComment(sql: string, start: nat, end: nat) {
    && start + 4 <= end <= |sql| && sql[start] == '/' && sql[start + 1] == '*' && ClosesBlock(sql, end - 2)
    && forall j :: start + 2 <= j < end - 2 ==> !ClosesBlock(sql, j)
  }

  /** What a lexeme may be, as a stretch of the text. */
  ghost predicate IsStretch(sql: string, lexeme: Lexeme) {
    && lexeme.start < lexeme.end <= |sql|
    && match lexeme
       case Word(token, start, end) =>
         if sql[start] == '$' && end > start + 1 then exists m :: IsDollarQuoted(sql, lexeme, m)
         else token.text == sql[start..end]
       case Comment(start, end) => IsLineComment(sql, start, end) || IsBlockComment(sql, start, end)
       case StatementEnd(start, end) => end == start + 1 && sql[start] == ';'
  }

  /** The lexemes lie in [from, to) in increasing order, without overlap, and with only white space between. */
  ghost predicate Tiles(sql: string, lexemes: seq<Lexeme>, from: nat, to: nat) {
    if lexemes == [] then AllSpace(sql, from, to)
    else
      && IsStretch(sql, lexemes[0]) && lexemes[0].end <= to
      && AllSpace(sql, from, lexemes[0].start)
      && Tiles(sql, lexemes[1..], lexemes[0].end, to)
  }

  lemma {:induction false} TilesConcat(sql: string, first: seq<Lexeme>, second: seq<Lexeme>, from: nat, mid: nat, to: nat)
    requires Tiles(sql, first, from, mid) && Tiles(sql, second, mid, to)
    requires first != [] || from == mid
    requires first != [] ==> first[|first| - 1].end == mid
    ensures Tiles(sql, first + second, from, to)
    decreases |first|
  {
    hide IsStretch;
    if first == [] {
      assert first + second == second;
    } else {
      assert (first + second)[1..] == first[1..] + second;
      TilesWithin(sql, second, mid, to);
      if |first| == 1 {
        assert first[1..] + second == second;
      } else {
        TilesConcat(sql, first[1..], second, first[0].end, mid, to);
      }
    }
  }

  lemma {:induction false} TilesWithin(sql: string, lexemes: seq<Lexeme>, from: nat, to: nat)
    requires Tiles(sql, lexemes, from, to)
    ensures from <= to <= |sql|
  {
    hide IsStretch;
    if lexemes != [] {
      TilesWithin(sql, lexemes[1..], lexemes[0].end, to);
      assert IsStretch(sql, lexemes[0]) ==> lexemes[0].start < lexemes[0].end by { StretchIsProper(sql, lexemes[0]); }
    }
  }

  lemma StretchIsProper(sql: string, lexeme: Lexeme)
    requires IsStretch(sql, lexeme)
    ensures lexeme.start < lexeme.end <= |sql|
  {
  }

  lemma TilesOne(sql: string, lexeme: Lexeme, rest: seq<Lexeme>, to: nat)
    requires IsStretch(sql, lexeme) && Tiles(sql, rest, lexeme.end, to)
    ensures Tiles(sql, [lexeme] + rest, lexeme.start, to)
  {
    hide IsStretch;
    TilesWithin(sql, rest, lexeme.end, to);
    StretchIsProper(sql, lexeme);
    assert ([lexeme] + rest)[1..] == rest;
  }

  lemma TilesAfterSpace(sql: string, lexemes: seq<Lexeme>, from: nat, to: nat)
    requires from < |sql| && IsSpace(sql[from]) && Tiles(sql, lexemes, from + 1, to)
    ensures Tiles(sql, lexemes, from, to)
  {
    hide IsStretch;
  }

  lemma {:induction false} SingleCharactersTile(sql: string, start: nat, end: nat)
    requires start <= end <= |sql|
    ensures Tiles(sql, SingleCharacters(sql, start, end), start, end)
    ensures start < end ==> var s := SingleCharacters(sql, start, end); |s| > 0 && s[|s| - 1].end == end
    decreases end - start
  {
    if start < end {
      SingleCharactersTile(sql, start + 1, end);
      TilesOne(sql, WordOf(sql, start, start + 1), SingleCharacters(sql, start + 1, end), end);
    }
  }

  lemma OperatorTiles(sql: string, start: nat, end: nat)
    requires start < end <= |sql| && sql[start] != '$'
    ensures var s := OperatorLexemes(sql, start, end); Tiles(sql, s, start, end) && |s| > 0 && s[|s| - 1].end == end
  {
    var trimmed := OperatorTrim(sql, start, end);
    SingleCharactersTile(sql, trimmed, end);
    hide Tiles, OperatorTrim, SingleCharacters;
    var singles := SingleCharacters(sql, trimmed, end);
    if start < trimmed {
      TilesOne(sql, WordOf(sql, start, trimmed), singles, end);
      NoCharacters(sql, trimmed, end);
    } else {
      assert [] + singles == singles;
    }
  }

  lemma NoCharacters(sql: string, start: nat, end: nat)
    requires start <= end <= |sql|
    ensures start == end ==> SingleCharacters(sql, start, end) == []
  {
  }

  lemma {:induction false} MarkerCloseIsFirst(sql: string, i: nat, marker: string)
    requires i <= |sql|
    ensures match MarkerClose(sql, i, marker)
            case None => forall j :: i <= j < |sql| ==> !MarkerAt(sql, j, marker)
            case Some(close) => FirstMarker(sql, i, marker, close)
    decreases |sql| - i
  {
    hide MarkerAt;
    if i < |sql| && !MarkerAt(sql, i, marker) {
      MarkerCloseIsFirst(sql, i + 1, marker);
    }
  }

  lemma DollarWordIsStretch(sql: string, i: nat, close: nat)
    requires i + 1 < |sql| && sql[i] == '$' && TagEnd(sql, i + 1).Some?
    requires var m := MarkerOf(sql, i + 1); MarkerClose(sql, i + |m| + 2, m) == Some(close)
    ensures IsStretch(sql, DollarWord(sql, i, MarkerOf(sql, i + 1), close))
  {
    hide MarkerClose, MarkerAt, FirstMarker, TagEnd, MarkerOf, Requoted, NoDollar;
    var m := MarkerOf(sql, i + 1);
    DollarWordFits(sql, i, close);
    OpeningMarker(sql, i);
    MarkerCloseIsFirst(sql, i + |m| + 2, m);
    DollarWordIsQuoted(sql, i, m, close);
    QuotedIsStretch(sql, DollarWord(sql, i, m, close), m);
  }

  lemma QuotedIsStretch(sql: string, lexeme: Lexeme, m: string)
    requires lexeme.Word? && IsDollarQuoted(sql, lexeme, m)
    ensures IsStretch(sql, lexeme)
  {
  }

  lemma DollarWordIsQuoted(sql: string, i: nat, m: string, close: nat)
    requires MarkerAt(sql, i, m) && NoDollar(m) && FirstMarker(sql, i + |m| + 2, m, close)
    ensures IsDollarQuoted(sql, DollarWord(sql, i, m, close), m)
  {
    hide Requoted, NoDollar;
  }

  lemma OpeningMarker(sql: string, i: nat)
    requires i + 1 < |sql| && sql[i] == '$' && TagEnd(sql, i + 1).Some?
    ensures MarkerAt(sql, i, MarkerOf(sql, i + 1)) && NoDollar(MarkerOf(sql, i + 1))
  {
    TagHasNoDollar(sql, i + 1);
  }

  /** Where the lexemes of a text from `i` on leave off: at its last word, or where a comment or a dollar quote
      begins that is open at the end. */
  function LeftAt(i: nat, lexing: Lexing): nat {
    var end := if lexing.lexemes == [] then i else lexing.lexemes[|lexing.lexemes| - 1].end;
    if lexing.lastPos < end then end else lexing.lastPos
  }

  /** A comment or a dollar quote that begins at `p` and is never closed. */
  ghost predicate IsOpen(sql: string, p: nat, state: TokenizeState) {
    p + 1 < |sql| &&
    match state
    case SingleLineComment => sql[p] == sql[p + 1] == '-' && forall j :: p + 2 <= j < |sql| ==> !IsNewline(sql[j])
    case MultiLineComment => sql[p] == '/' && sql[p + 1] == '*' && forall j :: p + 2 <= j < |sql| ==> !ClosesBlock(sql, j)
    case DollarQuotedString => exists m :: IsOpenQuote(sql, p, m)
    case _ => false
  }

  ghost predicate IsOpenQuote(sql: string, p: nat, m: string) {
    MarkerAt(sql, p, m) && NoDollar(m) && forall j :: p + |m| + 2 <= j < |sql| ==> !MarkerAt(sql, j, m)
  }

  /** A text from a position on, scanned to its end, is tiled up to its last word, or up to the comment or dollar
      quote that is open at its end. */
  ghost predicate Tiled(sql: string, i: nat, lexing: Lexing) {
    && Tiles(sql, lexing.lexemes, i, LeftAt(i, lexing))
    && if EndsInside(lexing.state) then IsOpen(sql, LeftAt(i, lexing), lexing.state) else LeftAt(i, lexing) == lexing.lastPos
  }

  lemma TiledOne(sql: string, lexeme: Lexeme, rest: Lexing)
    requires IsStretch(sql, lexeme) && Tiled(sql, lexeme.end, rest)
    ensures Tiled(sql, lexeme.start, Then([lexeme], rest))
  {
    hide Tiles, IsStretch, IsOpen;
    TilesOne(sql, lexeme, rest.lexemes, LeftAt(lexeme.end, rest));
    LeftThen(lexeme.start, [lexeme], lexeme.end, rest);
  }

  lemma LeftThen(i: nat, first: seq<Lexeme>, end: nat, rest: Lexing)
    requires first != [] && first[|first| - 1].end == end
    ensures LeftAt(i, Then(first, rest)) == LeftAt(end, rest)
  {
    var all := first + rest.lexemes;
    assert all[|all| - 1] == if rest.lexemes == [] then first[|first| - 1] else rest.lexemes[|rest.lexemes| - 1];
  }

  lemma TiledOperator(sql: string, start: nat, end: nat, rest: Lexing)
    requires start < end <= |sql| && sql[start] != '$' && Tiled(sql, end, rest)
    ensures Tiled(sql, start, Then(OperatorLexemes(sql, start, end), rest))
  {
    hide Tiles, OperatorLexemes, IsOpen;
    OperatorTiles(sql, start, end);
    TilesConcat(sql, OperatorLexemes(sql, start, end), rest.lexemes, start, end, LeftAt(end, rest));
    LeftThen(start, OperatorLexemes(sql, start, end), end, rest);
  }

  lemma TiledNothing(sql: string, i: nat, state: TokenizeState)
    requires i <= |sql| && !EndsInside(state)
    ensures Tiled(sql, i, Lexing([], state, i))
  {
  }

  lemma TiledOpen(sql: string, i: nat, state: TokenizeState, lastPos: nat)
    requires lastPos <= i && EndsInside(state) && IsOpen(sql, i, state)
    ensures Tiled(sql, i, Lexing([], state, lastPos))
  {
    hide IsOpen;
    OpenIsInside(sql, i, state);
  }

  lemma OpenIsInside(sql: string, i: nat, state: TokenizeState)
    requires IsOpen(sql, i, state)
    ensures i <= |sql|
  {
  }

  /** The last word starts at `i`, or at the '$' just before it and another character follows. */
  ghost predicate WordStart(sql: string, i: nat, lastPos: nat) {
    i <= |sql| && (lastPos == i || (lastPos + 1 == i && i < |sql| && sql[i] != '$'))
  }

  lemma {:induction false} DollarTiled(sql: string, i: nat)
    requires i < |sql| && sql[i] == '$'
    ensures Tiled(sql, i, LexDollar(sql, i, i))
    decreases |sql| - i, 0
  {
    hide Tiled, Lex, TagEnd, MarkerClose, MarkerOf, DollarWord, MarkerAt, IsStretch;
    if i + 1 == |sql| {
      TiledNothing(sql, i, Standard);
    } else if IsDigit(sql[i + 1]) || TagEnd(sql, i + 1) == None {
      if !IsDigit(sql[i + 1]) {
        NoTagNoDollar(sql, i + 1);
      }
      LexTiled(sql, i + 1, i);
      WordIsStretch(sql, i, i + 1);
      TiledOne(sql, WordOf(sql, i, i + 1), Lex(sql, i + 1, i));
    } else {
      var m := MarkerOf(sql, i + 1);
      var close := MarkerClose(sql, i + |m| + 2, m);
      if close.Some? {
        DollarWordIsStretch(sql, i, close.value);
        DollarWordFits(sql, i, close.value);
        DollarWordEnd(sql, i, m, close.value);
        var end := close.value + |m| + 2;
        LexTiled(sql, end, end);
        TiledOne(sql, DollarWord(sql, i, m, close.value), Lex(sql, end, end));
      } else {
        OpeningMarker(sql, i);
        MarkerCloseIsFirst(sql, i + |m| + 2, m);
        NeverClosed(sql, i, m);
        TiledOpen(sql, i, DollarQuotedString, i);
      }
    }
  }

  lemma NeverClosed(sql: string, i: nat, m: string)
    requires MarkerAt(sql, i, m) && NoDollar(m) && forall j :: i + |m| + 2 <= j < |sql| ==> !MarkerAt(sql, j, m)
    ensures IsOpen(sql, i, DollarQuotedString)
  {
    assert IsOpenQuote(sql, i, m);
  }

  lemma WordIsStretch(sql: string, start: nat, end: nat)
    requires start < end <= |sql| && (sql[start] == '$' ==> end == start + 1)
    ensures IsStretch(sql, WordOf(sql, start, end))
  {
  }

  lemma {:induction false} LineEndIsFirst(sql: string, i: nat)
    requires i <= |sql| && LineEnd(sql, i).Some?
    ensures IsNewline(sql[LineEnd(sql, i).value - 1])
    ensures forall j :: i <= j < LineEnd(sql, i).value - 1 ==> !IsNewline(sql[j])
    decreases |sql| - i
  {
    if !IsNewline(sql[i]) {
      LineEndIsFirst(sql, i + 1);
    }
  }

  lemma {:induction false} BlockEndIsFirst(sql: string, i: nat)
    requires i <= |sql| && BlockEnd(sql, i).Some?
    ensures BlockEnd(sql, i).value >= i + 2 && ClosesBlock(sql, BlockEnd(sql, i).value - 2)
    ensures forall j :: i <= j < BlockEnd(sql, i).value - 2 ==> !ClosesBlock(sql, j)
    decreases |sql| - i
  {
    if !ClosesBlock(sql, i) {
      BlockEndIsFirst(sql, i + 1);
    }
  }

  lemma {:induction false} NoLineEnd(sql: string, i: nat)
    requires i <= |sql| && LineEnd(sql, i).None?
    ensures forall j :: i <= j < |sql| ==> !IsNewline(sql[j])
    decreases |sql| - i
  {
    if i < |sql| {
      NoLineEnd(sql, i + 1);
    }
  }

  lemma {:induction false} NoBlockEnd(sql: string, i: nat)
    requires i <= |sql| && BlockEnd(sql, i).None?
    ensures forall j :: i <= j < |sql| ==> !ClosesBlock(sql, j)
    decreases |sql| - i
  {
    if i < |sql| {
      NoBlockEnd(sql, i + 1);
    }
  }

  lemma OpenComments(sql: string, start: nat)
    requires start + 1 < |sql|
    ensures sql[start] == sql[start + 1] == '-' && LineEnd(sql, start + 2).None? ==> IsOpen(sql, start, SingleLineComment)
    ensures sql[start] == '/' && sql[start + 1] == '*' && BlockEnd(sql, start + 2).None? ==> IsOpen(sql, start, MultiLineComment)
  {
    hide LineEnd, BlockEnd, ClosesBlock;
    if LineEnd(sql, start + 2).None? {
      NoLineEnd(sql, start + 2);
    }
    if BlockEnd(sql, start + 2).None? {
      NoBlockEnd(sql, start + 2);
    }
  }

  lemma CommentsAreStretches(sql: string, start: nat)
    requires start + 1 < |sql|
    ensures sql[start] == sql[start + 1] == '-' && LineEnd(sql, start + 2).Some? ==>
              IsStretch(sql, Comment(start, LineEnd(sql, start + 2).value))
    ensures sql[start] == '/' && sql[start + 1] == '*' && BlockEnd(sql, start + 2).Some? ==>
              IsStretch(sql, Comment(start, BlockEnd(sql, start + 2).value))
  {
    hide LineEnd, BlockEnd, ClosesBlock;
    if LineEnd(sql, start + 2).Some? {
      LineEndIsFirst(sql, start + 2);
    }
    if BlockEnd(sql, start + 2).Some? {
      BlockEndIsFirst(sql, start + 2);
    }
  }

  lemma {:induction false} QuoteTiled(sql: string, i: nat, state: TokenizeState, close: Option<nat>)
    requires i < |sql| && sql[i] != '$' && (close.Some? ==> i < close.value <= |sql|) && !EndsInside(state)
    ensures Tiled(sql, i, AfterQuote(sql, i, state, close))
    decreases |sql| - i, 0
  {
    hide Tiled, Lex;
    if close.Some? {
      LexTiled(sql, close.value, close.value);
      WordIsStretch(sql, i, close.value);
      TiledOne(sql, WordOf(sql, i, close.value), Lex(sql, close.value, close.value));
    } else {
      TiledNothing(sql, i, state);
    }
  }

  lemma {:induction false} CommentTiled(sql: string, i: nat, state: TokenizeState, lastPos: nat, close: Option<nat>)
    requires i < |sql| && lastPos <= i && EndsInside(state) && (close.None? ==> IsOpen(sql, i, state))
    requires close.Some? ==> i < close.value <= |sql| && IsStretch(sql, Comment(i, close.value))
    ensures Tiled(sql, i, AfterComment(sql, i, state, lastPos, close))
    decreases |sql| - i, 0
  {
    hide Lex, Tiled, IsStretch, IsOpen;
    if close.Some? {
      LexTiled(sql, close.value, close.value);
      TiledOne(sql, Comment(i, close.value), Lex(sql, close.value, close.value));
    } else {
      TiledOpen(sql, i, state, lastPos);
    }
  }

  lemma {:induction false} NumberTiled(sql: string, i: nat, end: nat)
    requires i < end <= |sql| && IsInitialNumber(sql[i])
    ensures Tiled(sql, i, AfterNumber(sql, i, end))
    decreases |sql| - i, 0
  {
    hide Tiled, Lex, Backtrack;
    if end == |sql| {
      TiledNothing(sql, i, Numeric);
    } else {
      var e := Backtrack(sql, i, end);
      LexTiled(sql, e, e);
      WordIsStretch(sql, i, e);
      TiledOne(sql, WordOf(sql, i, e), Lex(sql, e, e));
    }
  }

  lemma {:induction false} WordTiled(sql: string, i: nat, end: nat)
    requires i < end <= |sql| && sql[i] != '$'
    ensures Tiled(sql, i, AfterWord(sql, i, end))
    ensures Tiled(sql, i, AfterOperator(sql, i, end))
    decreases |sql| - i, 0
  {
    hide Tiled, Lex, OperatorLexemes;
    if end == |sql| {
      TiledNothing(sql, i, Keyword);
      TiledNothing(sql, i, Operator);
    } else {
      LexTiled(sql, end, end);
      WordIsStretch(sql, i, end);
      TiledOne(sql, WordOf(sql, i, end), Lex(sql, end, end));
      TiledOperator(sql, i, end, Lex(sql, end, end));
    }
  }

  lemma {:induction false} OneTiled(sql: string, lexeme: Lexeme)
    requires IsStretch(sql, lexeme)
    ensures lexeme.end <= |sql| && Tiled(sql, lexeme.start, Then([lexeme], Lex(sql, lexeme.end, lexeme.end)))
    decreases |sql| - lexeme.start, 0
  {
    hide Tiled, Lex;
    LexTiled(sql, lexeme.end, lexeme.end);
    TiledOne(sql, lexeme, Lex(sql, lexeme.end, lexeme.end));
  }

  lemma {:induction false} SpaceTiled(sql: string, i: nat)
    requires i < |sql| && IsSpace(sql[i])
    ensures Tiled(sql, i, Lex(sql, i + 1, i + 1))
    decreases |sql| - i, 0
  {
    hide Lex, Tiles, IsOpen;
    LexTiled(sql, i + 1, i + 1);
    NothingBehind(sql, i + 1, i + 1);
    TilesAfterSpace(sql, Lex(sql, i + 1, i + 1).lexemes, i, LeftAt(i + 1, Lex(sql, i + 1, i + 1)));
  }

  lemma NotEmpty(first: seq<Lexeme>, rest: Lexing)
    ensures first != [] ==> Then(first, rest).lexemes != []
  {
  }

  /** The last word does not begin before the position the text was read from. */
  lemma {:induction false} NothingBehind(sql: string, i: nat, lastPos: nat)
    requires i <= |sql| && lastPos <= i
    ensures Lex(sql, i, lastPos).lexemes == [] ==> lastPos <= Lex(sql, i, lastPos).lastPos
    decreases |sql| - i
  {
    hide CloseQuote, LineEnd, BlockEnd, NumberEnd, OperatorEnd, WordEnd, TagEnd, MarkerClose, MarkerOf, OperatorLexemes,
         DollarWord, Tiles;
    if i < |sql| {
      if IsSpace(sql[i]) {
        NothingBehind(sql, i + 1, i + 1);
      } else if sql[i] != '$' {
        OperatorTiles(sql, i, OperatorEnd(sql, i + 1));
        NotEmpty(OperatorLexemes(sql, i, OperatorEnd(sql, i + 1)), Lex(sql, OperatorEnd(sql, i + 1), OperatorEnd(sql, i + 1)));
      } else {
        assert LexDollar(sql, i, lastPos).lexemes == [] ==> lastPos <= LexDollar(sql, i, lastPos).lastPos;
      }
    }
  }

  lemma {:induction false} LexTiled(sql: string, i: nat, lastPos: nat)
    requires WordStart(sql, i, lastPos)
    ensures Tiled(sql, i, Lex(sql, i, lastPos))
    decreases |sql| - i, 2
  {
    hide Tiled, AfterQuote, AfterComment, AfterNumber, AfterOperator, AfterWord, LexDollar, IsStretch, IsOpen;
    hide CloseQuote, LineEnd, BlockEnd, NumberEnd, OperatorEnd, WordEnd;
    if i == |sql| {
      TiledNothing(sql, i, Standard);
    } else {
      var c, next := sql[i], if i + 1 < |sql| then sql[i + 1] else ' ';
      if c == '\'' {
        QuoteTiled(sql, i, StringLiteral, CloseQuote(sql, i + 1, '\''));
      } else if c == '"' {
        QuoteTiled(sql, i, QuotedIdentifier, CloseQuote(sql, i + 1, '"'));
      } else if c == ';' {
        StatementEndIsStretch(sql, i);
        OneTiled(sql, StatementEnd(i, i + 1));
      } else if c == '$' {
        DollarTiled(sql, i);
      } else if c == '-' && next == '-' {
        CommentsAreStretches(sql, i);
        OpenComments(sql, i);
        CommentTiled(sql, i, SingleLineComment, lastPos, LineEnd(sql, i + 2));
      } else if c == '/' && next == '*' {
        CommentsAreStretches(sql, i);
        OpenComments(sql, i);
        CommentTiled(sql, i, MultiLineComment, lastPos, BlockEnd(sql, i + 2));
      } else if IsSpace(c) {
        SpaceTiled(sql, i);
      } else {
        WordsTiled(sql, i, lastPos);
      }
    }
  }

  lemma StatementEndIsStretch(sql: string, i: nat)
    requires i < |sql| && sql[i] == ';'
    ensures IsStretch(sql, StatementEnd(i, i + 1))
  {
  }

  lemma OperatorIsStretch(sql: string, i: nat, end: nat, offset: nat)
    requires i < end <= |sql| && sql[i] != '$'
    ensures IsStretch(sql, Word(Token(sql[i..end], offset), i, end))
    ensures end == i + 1 ==> sql[i..end] == [sql[i]]
  {
  }

  lemma {:induction false} WordsTiled(sql: string, i: nat, lastPos: nat)
    requires i < |sql| && BeginsWord(sql, i)
    ensures Tiled(sql, i, Lex(sql, i, lastPos))
    decreases |sql| - i, 1
  {
    hide Tiled, AfterQuote, AfterNumber, AfterOperator, AfterWord, IsStretch;
    hide CloseQuote, NumberEnd, OperatorEnd, WordEnd, SpecialOperatorLength;
    var c, end := sql[i], i + SpecialOperatorLength(sql, i);
    if end > i {
      OperatorIsStretch(sql, i, end, lastPos);
      OneTiled(sql, Word(Token(sql[i..end], lastPos), i, end));
    } else if IsSingleByteOperator(c) {
      OperatorIsStretch(sql, i, i + 1, lastPos);
      OneTiled(sql, Word(Token([c], lastPos), i, i + 1));
    } else if IsInitialNumber(c) {
      NumberTiled(sql, i, NumberEnd(sql, i + 1));
    } else if IsStringPrefix(c) && i + 1 < |sql| && sql[i + 1] == '\'' {
      QuoteTiled(sql, i, StringLiteral, CloseQuote(sql, i + 2, '\''));
    } else if IsPunctuation(c) {
      WordTiled(sql, i, OperatorEnd(sql, i + 1));
    } else {
      WordTiled(sql, i, WordEnd(sql, i + 1));
    }
  }

  lemma NoTagNoDollar(sql: string, i: nat)
    requires i < |sql| && TagEnd(sql, i) == None
    ensures sql[i] != '$'
  {
  }

  lemma DollarWordFits(sql: string, i: nat, close: nat)
    requires i + 1 < |sql| && TagEnd(sql, i + 1).Some?
    requires var m := MarkerOf(sql, i + 1); MarkerClose(sql, i + |m| + 2, m) == Some(close)
    ensures var m := MarkerOf(sql, i + 1); i + |m| + 2 <= close && close + |m| + 2 <= |sql|
  {
    hide MarkerClose, TagEnd, MarkerOf;
  }

  lemma DollarWordEnd(sql: string, start: nat, marker: string, close: nat)
    requires start + |marker| + 2 <= close && close + |marker| + 2 <= |sql|
    ensures DollarWord(sql, start, marker, close).start == start
    ensures DollarWord(sql, start, marker, close).end == close + |marker| + 2
  {
    hide Requoted;
  }

  /** Position `p` lies inside one of the lexemes. */
  ghost predicate Covered(lexemes: seq<Lexeme>, p: nat) {
    exists k :: 0 <= k < |lexemes| && lexemes[k].start <= p < lexemes[k].end
  }

  lemma {:induction false} TilesMeaning(sql: string, lexemes: seq<Lexeme>, from: nat, to: nat)
    requires Tiles(sql, lexemes, from, to)
    ensures from <= to <= |sql|
    ensures forall k :: 0 <= k < |lexemes| ==> from <= lexemes[k].start && lexemes[k].end <= to && IsStretch(sql, lexemes[k])
    ensures forall k, l :: 0 <= k < l < |lexemes| ==> lexemes[k].end <= lexemes[l].start
    ensures forall p :: from <= p < to ==> Covered(lexemes, p) || IsSpace(sql[p])
    decreases |lexemes|
  {
    hide IsStretch;
    if lexemes != [] {
      StretchIsProper(sql, lexemes[0]);
      var rest := lexemes[1..];
      TilesMeaning(sql, rest, lexemes[0].end, to);
      assert forall k :: 0 < k < |lexemes| ==> lexemes[k] == rest[k - 1];
      forall p | from <= p < to && !IsSpace(sql[p])
        ensures Covered(lexemes, p)
      {
        if p < lexemes[0].end {
          assert lexemes[0].start <= p;
        } else {
          var k :| 0 <= k < |rest| && rest[k].start <= p < rest[k].end;
          assert lexemes[k + 1] == rest[k];
        }
      }
    }
  }

  /** In every text tokens come from disjoint stretches in increasing order, and every character is in such a
      stretch, a ';' or a comment, or white space, up to the last word, or up to the comment or dollar quote that is
      open at the end. */
  lemma EveryCharacterIsAccountedFor(sql: string)
    ensures var lexing, left := Lex(sql, 0, 0), LeftAt(0, Lex(sql, 0, 0));
            && left <= |sql|
            && (forall k :: 0 <= k < |lexing.lexemes| ==>
                  lexing.lexemes[k].end <= left && IsStretch(sql, lexing.lexemes[k]))
            && (forall k, l :: 0 <= k < l < |lexing.lexemes| ==> lexing.lexemes[k].end <= lexing.lexemes[l].start)
            && (forall p :: 0 <= p < left ==> Covered(lexing.lexemes, p) || IsSpace(sql[p]))
            && (EndsInside(lexing.state) ==> IsOpen(sql, left, lexing.state))
            && (!EndsInside(lexing.state) ==> left == lexing.lastPos)
            && (lexing.state != StringLiteral && lexing.lastPos < |sql| ==>
                  LastWord(sql, lexing) == [Token(sql[lexing.lastPos..], lexing.lastPos)])
  {
    hide Lex, Tiles, IsStretch, Covered, IsOpen, LeftAt;
    LexTiled(sql, 0, 0);
    TilesMeaning(sql, Lex(sql, 0, 0).lexemes, 0, LeftAt(0, Lex(sql, 0, 0)));
  }
}
