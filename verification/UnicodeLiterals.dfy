/**
 The scan for Unicode spaces beside the tokenizer that reads its output: when no literal of the text loses a
 Unicode space.
 */
module UnicodeLiterals {
  import opened Options
  import opened SqlCharacters
  import opened SqlLexer
  import opened SqlTokenizer
  import opened SqlCoverage
  import opened SqlRetokenize
  import opened UnicodeSpaces
  import opened UnicodeMoves
  import opened UnicodeDollarQuotes
  import opened UnicodeComments
  import opened UnicodeRuns
  import UnicodeScanner

  // ---------------------------------------------------------------- literals

  /** A quoted stretch: single or double quotes, a literal with a prefix, or a dollar quote. */
  predicate IsLiteralAt(sql: string, lexeme: Lexeme) {
    && lexeme.Word? && lexeme.start < lexeme.end <= |sql|
    && var c := sql[lexeme.start];
       || c == '"' || c == '\'' || (c == '$' && lexeme.end > lexeme.start + 1)
       || (IsStringPrefix(c) && lexeme.end > lexeme.start + 1 && sql[lexeme.start + 1] == '\'')
  }

  /** Out of a block comment the scan comes in mode Regular, and the markers of a dollar quote are clear. */
  ghost predicate IsSafe(sql: string, lexeme: Lexeme) {
    lexeme.start < lexeme.end <= |sql| ==>
      && (lexeme.Comment? && sql[lexeme.start] == '/' ==>
            ModeBehind(Regular, sql[lexeme.start..lexeme.end]) == Regular)
      && (lexeme.Word? ==> forall m :: IsDollarQuoted(sql, lexeme, m) ==> IsClear(sql, lexeme.start, m, lexeme.end))
  }

  ghost predicate AllSafe(sql: string, lexemes: seq<Lexeme>) {
    forall k :: 0 <= k < |lexemes| ==> IsSafe(sql, lexemes[k])
  }

  /** In the literals the scan stands at plain bytes only. */
  ghost predicate AllKept(sql: string, i: nat, lexemes: seq<Lexeme>) {
    forall k :: 0 <= k < |lexemes| && IsLiteralAt(sql, lexemes[k]) ==> IsKept(sql, i, lexemes[k])
  }

  ghost predicate IsKept(sql: string, i: nat, lexeme: Lexeme) {
    && i <= lexeme.start
    && forall p: nat :: lexeme.start <= p < lexeme.end && Stands(Regular, sql, i, p) ==> p < |sql| && sql[p] < '\U{80}'
  }

  lemma NoneKept(sql: string, i: nat)
    ensures AllKept(sql, i, [])
  {
  }

  lemma SafeRest(sql: string, first: seq<Lexeme>, rest: Lexing)
    requires AllSafe(sql, Then(first, rest).lexemes)
    ensures AllSafe(sql, first) && AllSafe(sql, rest.lexemes)
  {
    hide IsSafe;
    var all := first + rest.lexemes;
    assert forall k :: 0 <= k < |first| ==> first[k] == all[k];
    assert forall k :: 0 <= k < |rest.lexemes| ==> rest.lexemes[k] == all[|first| + k];
  }

  /** The scan from `i` keeps what it keeps from `e`. */
  lemma KeptBehind(sql: string, i: nat, e: nat, rest: seq<Lexeme>)
    requires Follows(sql, i, e) && AllKept(sql, e, rest)
    ensures AllKept(sql, i, rest)
  {
    hide Stands;
    forall k | 0 <= k < |rest| && IsLiteralAt(sql, rest[k])
      ensures IsKept(sql, i, rest[k])
    {
      assert IsKept(sql, e, rest[k]);
    }
  }

  lemma KeptThen(sql: string, i: nat, first: seq<Lexeme>, e: nat, rest: Lexing)
    requires AllKept(sql, i, first) && Follows(sql, i, e) && AllKept(sql, e, rest.lexemes)
    ensures AllKept(sql, i, Then(first, rest).lexemes)
  {
    hide IsKept, IsLiteralAt, Follows;
    KeptBehind(sql, i, e, rest.lexemes);
    var all := first + rest.lexemes;
    assert forall k :: 0 <= k < |all| ==> all[k] == if k < |first| then first[k] else rest.lexemes[k - |first|];
  }

  lemma SkippedIsKept(sql: string, lexeme: Lexeme)
    requires Skips(sql, lexeme.start, lexeme.end)
    ensures AllKept(sql, lexeme.start, [lexeme])
  {
    hide Stands;
  }

  lemma PlainIsKept(sql: string, i: nat, lexeme: Lexeme)
    requires !IsLiteralAt(sql, lexeme)
    ensures AllKept(sql, i, [lexeme])
  {
  }

  // ---------------------------------------------------------------- the tokenizer, lexeme by lexeme

  lemma WordRuns(sql: string, i: nat)
    requires i < |sql| && IsKeywordCharacter(sql[i])
    ensures PlainRun(sql, i, WordEnd(sql, i + 1)) && i < WordEnd(sql, i + 1)
    ensures !IsLiteralAt(sql, WordOf(sql, i, WordEnd(sql, i + 1)))
  {
    WordEndChars(sql, i + 1);
    WordStops(sql, i + 1);
  }

  lemma {:induction false} WordStops(sql: string, i: nat)
    requires i <= |sql|
    ensures WordEnd(sql, i) < |sql| ==> !IsKeywordCharacter(sql[WordEnd(sql, i)])
    decreases |sql| - i
  {
    if i < |sql| && IsKeywordCharacter(sql[i]) {
      WordStops(sql, i + 1);
    }
  }

  lemma OperatorRuns(sql: string, i: nat)
    requires i < |sql| && IsPunctuation(sql[i]) && sql[i] !in {'"', '\'', '$', '-'}
    ensures PlainRun(sql, i, OperatorEnd(sql, i + 1)) && i < OperatorEnd(sql, i + 1)
    ensures forall k :: i <= k < OperatorEnd(sql, i + 1) ==> IsPunctuation(sql[k]) && sql[k] !in {'"', '\'', '$', '-'}
  {
    OperatorEndChars(sql, i + 1);
  }

  lemma NumberByteStays(sql: string, k: nat, inside: bool, more: bool)
    requires k < |sql| && (if inside then k > 0 && NumberContinues(sql, k) else IsInitialNumber(sql[k]))
    requires if more then k + 1 < |sql| && NumberContinues(sql, k + 1) else IsInitialNumber(sql[k])
    ensures !LeavesRegular(sql, k)
  {
  }

  lemma NumberRuns(sql: string, i: nat, e: nat)
    requires i < |sql| && IsInitialNumber(sql[i]) && i < e <= NumberEnd(sql, i + 1) && IsInitialNumber(sql[e - 1])
    ensures PlainRun(sql, i, e) && !IsLiteralAt(sql, WordOf(sql, i, e))
  {
    hide LeavesRegular, NumberContinues, NumberEnd;
    NumberEndChars(sql, i + 1);
    forall k | i <= k < e
      ensures !LeavesRegular(sql, k)
    {
      NumberByteStays(sql, k, k > i, k + 1 < e);
    }
  }

  lemma {:induction false} SinglesAreKept(sql: string, i: nat, start: nat, end: nat)
    requires start <= end <= |sql| && forall k :: start <= k < end ==> IsPunctuation(sql[k]) && sql[k] !in {'"', '\'', '$', '-'}
    ensures AllKept(sql, i, SingleCharacters(sql, start, end))
    decreases end - start
  {
    if start < end {
      SinglesAreKept(sql, i, start + 1, end);
      PlainIsKept(sql, i, WordOf(sql, start, start + 1));
    }
  }

  lemma OperatorsAreKept(sql: string, i: nat, end: nat)
    requires i < end <= |sql| && forall k :: i <= k < end ==> IsPunctuation(sql[k]) && sql[k] !in {'"', '\'', '$', '-'}
    ensures AllKept(sql, i, OperatorLexemes(sql, i, end))
  {
    var trimmed := OperatorTrim(sql, i, end);
    SinglesAreKept(sql, i, trimmed, end);
    if i < trimmed {
      PlainIsKept(sql, i, WordOf(sql, i, trimmed));
    }
  }

  /** One plain lexeme, and the rest. */
  lemma {:induction false} PlainLexeme(sql: string, i: nat, lexeme: Lexeme, e: nat, lastPos: nat)
    requires IsBytes(sql) && PlainRun(sql, i, e) && i < e && e <= |sql| && WordStart(sql, e, lastPos) && !IsLiteralAt(sql, lexeme)
    requires AllSafe(sql, Then([lexeme], Lex(sql, e, lastPos)).lexemes)
    ensures AllKept(sql, i, Then([lexeme], Lex(sql, e, lastPos)).lexemes)
    decreases |sql| - i, 0
  {
    hide Lex, PlainRun, IsLiteralAt, AllSafe, AllKept, Follows;
    SafeRest(sql, [lexeme], Lex(sql, e, lastPos));
    PlainFollows(sql, i, e);
    LexIsKept(sql, e, lastPos);
    PlainIsKept(sql, i, lexeme);
    KeptThen(sql, i, [lexeme], e, Lex(sql, e, lastPos));
  }

  lemma {:induction false} QuoteIsKept(sql: string, i: nat, state: TokenizeState, close: Option<nat>)
    requires IsBytes(sql) && i < |sql| && (close.Some? ==> i < close.value <= |sql|)
    requires close.Some? ==> Follows(sql, i, close.value) && Skips(sql, i, close.value)
    requires AllSafe(sql, AfterQuote(sql, i, state, close).lexemes)
    ensures AllKept(sql, i, AfterQuote(sql, i, state, close).lexemes)
    decreases |sql| - i, 0
  {
    hide Lex, AllSafe, AllKept, Follows, Skips;
    if close.Some? {
      var lexeme, e := WordOf(sql, i, close.value), close.value;
      SafeRest(sql, [lexeme], Lex(sql, e, e));
      LexIsKept(sql, e, e);
      SkippedIsKept(sql, lexeme);
      KeptThen(sql, i, [lexeme], e, Lex(sql, e, e));
    } else {
      NoneKept(sql, i);
    }
  }

  lemma {:induction false} CommentIsKept(sql: string, i: nat, state: TokenizeState, lastPos: nat, close: Option<nat>)
    requires IsBytes(sql) && i < |sql| && (close.Some? ==> i < close.value <= |sql|)
    requires close.Some? && IsSafe(sql, Lexeme.Comment(i, close.value)) ==> Follows(sql, i, close.value)
    requires AllSafe(sql, AfterComment(sql, i, state, lastPos, close).lexemes)
    ensures AllKept(sql, i, AfterComment(sql, i, state, lastPos, close).lexemes)
    decreases |sql| - i, 0
  {
    hide Lex, AllKept, Follows, IsSafe;
    if close.Some? {
      var lexeme, e := Lexeme.Comment(i, close.value), close.value;
      SafeRest(sql, [lexeme], Lex(sql, e, e));
      assert IsSafe(sql, [lexeme][0]);
      LexIsKept(sql, e, e);
      PlainIsKept(sql, i, lexeme);
      KeptThen(sql, i, [lexeme], e, Lex(sql, e, e));
    } else {
      NoneKept(sql, i);
    }
  }

  lemma BlockCommentFollows(sql: string, i: nat, end: nat)
    requires i + 1 < |sql| && sql[i] == '/' && BlockEnd(sql, i + 2) == Some(end) && IsSafe(sql, Lexeme.Comment(i, end))
    ensures Follows(sql, i, end)
  {
    hide BlockEnd, IsDollarQuoted, ModeBehind, Follows;
    BlockCommentComes(sql, i, end);
    ComesFollows(sql, i, end);
  }

  lemma {:induction false} DollarIsKept(sql: string, i: nat)
    requires IsBytes(sql) && i < |sql| && sql[i] == '$' && AllSafe(sql, LexDollar(sql, i, i).lexemes)
    ensures AllKept(sql, i, LexDollar(sql, i, i).lexemes)
    decreases |sql| - i, 1
  {
    hide Lex, TagEnd, MarkerClose, MarkerOf, DollarWord, AllSafe, AllKept, Follows, Skips;
    if i + 1 == |sql| {
      NoneKept(sql, i);
    } else if IsDigit(sql[i + 1]) || TagEnd(sql, i + 1) == None {
      var lexeme := WordOf(sql, i, i + 1);
      if !IsDigit(sql[i + 1]) {
        NoTagNoDollar(sql, i + 1);
      }
      SafeRest(sql, [lexeme], Lex(sql, i + 1, i));
      LoneDollarFollows(sql, i);
      LexIsKept(sql, i + 1, i);
      PlainIsKept(sql, i, lexeme);
      KeptThen(sql, i, [lexeme], i + 1, Lex(sql, i + 1, i));
    } else {
      var m := MarkerOf(sql, i + 1);
      var close := MarkerClose(sql, i + |m| + 2, m);
      if close.Some? {
        DollarQuoteIsKept(sql, i, m, close.value);
      } else {
        NoneKept(sql, i);
      }
    }
  }

  lemma {:induction false} DollarQuoteIsKept(sql: string, i: nat, m: string, close: nat)
    requires IsBytes(sql) && i + 1 < |sql| && sql[i] == '$' && !IsDigit(sql[i + 1]) && TagEnd(sql, i + 1).Some?
    requires m == MarkerOf(sql, i + 1) && MarkerClose(sql, i + |m| + 2, m) == Some(close)
    requires i + |m| + 2 <= close && close + |m| + 2 <= |sql|
    requires AllSafe(sql, AfterDollar(sql, i, m, Some(close)).lexemes)
    ensures AllKept(sql, i, AfterDollar(sql, i, m, Some(close)).lexemes)
    decreases |sql| - i, 0
  {
    hide Lex, TagEnd, MarkerClose, MarkerOf, Requoted, AllKept, Follows, Skips, FirstMarker, MarkerAt,
         NoDollar, IsClear, IsDollarQuoted, IsTag;
    var lexeme, e := DollarWord(sql, i, m, close), close + |m| + 2;
    DollarWordEnd(sql, i, m, close);
    OpeningMarker(sql, i);
    MarkerIsTag(sql, i + 1);
    MarkerCloseIsFirst(sql, i + |m| + 2, m);
    DollarWordIsQuoted(sql, i, m, close);
    SafeRest(sql, [lexeme], Lex(sql, e, e));
    assert IsSafe(sql, [lexeme][0]);
    DollarFollows(sql, i, m, close);
    LexIsKept(sql, e, e);
    SkippedIsKept(sql, lexeme);
    KeptThen(sql, i, [lexeme], e, Lex(sql, e, e));
  }

  lemma {:induction false} WordsAreKept(sql: string, i: nat, lastPos: nat)
    requires IsBytes(sql) && i < |sql| && AllSafe(sql, Lex(sql, i, lastPos).lexemes)
    requires BeginsWord(sql, i) && lastPos <= i
    ensures AllKept(sql, i, Lex(sql, i, lastPos).lexemes)
    decreases |sql| - i, 1
  {
    hide WordEnd, OperatorEnd, NumberEnd, CloseQuote, AllSafe, AllKept, OperatorLexemes, PlainRun, Follows, Skips, LeavesRegular;
    var end := i + SpecialOperatorLength(sql, i);
    if end > i {
      SpecialRuns(sql, i, lastPos);
      PlainLexeme(sql, i, Word(Token(sql[i..end], lastPos), i, end), end, end);
    } else if IsSingleByteOperator(sql[i]) {
      SingleRuns(sql, i);
      PlainLexeme(sql, i, Word(Token([sql[i]], lastPos), i, i + 1), i + 1, i + 1);
    } else if IsInitialNumber(sql[i]) {
      var stop := NumberEnd(sql, i + 1);
      if stop < |sql| {
        var e := Backtrack(sql, i, stop);
        NumberRuns(sql, i, e);
        PlainLexeme(sql, i, WordOf(sql, i, e), e, e);
      } else {
        NoneKept(sql, i);
      }
    } else if IsStringPrefix(sql[i]) && i + 1 < |sql| && sql[i + 1] == '\'' {
      var close := CloseQuote(sql, i + 2, '\'');
      if close.Some? {
        PrefixFollows(sql, i, close.value);
      }
      QuoteIsKept(sql, i, StringLiteral, close);
    } else if IsPunctuation(sql[i]) {
      OperatorIsPassed(sql, i, OperatorEnd(sql, i + 1));
    } else {
      WordRuns(sql, i);
      var e := WordEnd(sql, i + 1);
      if e < |sql| {
        PlainLexeme(sql, i, WordOf(sql, i, e), e, e);
      } else {
        NoneKept(sql, i);
      }
    }
  }

  lemma {:induction false} OperatorIsPassed(sql: string, i: nat, end: nat)
    requires IsBytes(sql) && i < |sql| && IsPunctuation(sql[i]) && sql[i] !in {'"', '\'', '$', '-'} && end == OperatorEnd(sql, i + 1)
    requires AllSafe(sql, AfterOperator(sql, i, end).lexemes)
    ensures AllKept(sql, i, AfterOperator(sql, i, end).lexemes)
    decreases |sql| - i, 0
  {
    hide Lex, OperatorEnd, OperatorLexemes, AllSafe, AllKept, PlainRun, Follows;
    if end < |sql| {
      OperatorRuns(sql, i);
      OperatorsAreKept(sql, i, end);
      PlainFollows(sql, i, end);
      SafeRest(sql, OperatorLexemes(sql, i, end), Lex(sql, end, end));
      LexIsKept(sql, end, end);
      KeptThen(sql, i, OperatorLexemes(sql, i, end), end, Lex(sql, end, end));
    } else {
      NoneKept(sql, i);
    }
  }

  lemma SpecialRuns(sql: string, i: nat, lastPos: nat)
    requires i < |sql| && SpecialOperatorLength(sql, i) > 0
    ensures PlainRun(sql, i, i + SpecialOperatorLength(sql, i))
    ensures var end := i + SpecialOperatorLength(sql, i); !IsLiteralAt(sql, Word(Token(sql[i..end], lastPos), i, end))
  {
  }

  lemma SingleRuns(sql: string, i: nat)
    requires i < |sql| && BeginsWord(sql, i) && IsSingleByteOperator(sql[i])
    ensures PlainRun(sql, i, i + 1)
    ensures !IsLiteralAt(sql, Word(Token([sql[i]], 0), i, i + 1))
  {
  }

  lemma {:induction false} LexIsKept(sql: string, i: nat, lastPos: nat)
    requires IsBytes(sql) && WordStart(sql, i, lastPos) && AllSafe(sql, Lex(sql, i, lastPos).lexemes)
    ensures AllKept(sql, i, Lex(sql, i, lastPos).lexemes)
    decreases |sql| - i, 2
  {
    hide CloseQuote, LineEnd, BlockEnd, LexDollar, AfterNumber, AfterOperator, AfterWord, AfterQuote, AfterComment,
         AllSafe, AllKept, Follows, Skips, IsSafe, PlainRun;
    if i == |sql| {
      NoneKept(sql, i);
    } else {
      var c, next := sql[i], if i + 1 < |sql| then sql[i + 1] else ' ';
      if c == '\'' {
        QuotedIsKept(sql, i, StringLiteral);
      } else if c == '"' {
        QuotedIsKept(sql, i, QuotedIdentifier);
      } else if c == ';' {
        OneByteRuns(sql, i);
        PlainLexeme(sql, i, StatementEnd(i, i + 1), i + 1, i + 1);
      } else if c == '$' {
        DollarIsKept(sql, i);
      } else if c == '-' && next == '-' {
        var close := LineEnd(sql, i + 2);
        if close.Some? {
          LineCommentFollows(sql, i, close.value);
        }
        CommentIsKept(sql, i, SingleLineComment, lastPos, close);
      } else if c == '/' && next == '*' {
        var close := BlockEnd(sql, i + 2);
        if close.Some? && IsSafe(sql, Lexeme.Comment(i, close.value)) {
          BlockCommentFollows(sql, i, close.value);
        }
        CommentIsKept(sql, i, MultiLineComment, lastPos, close);
      } else if IsSpace(c) {
        OneByteRuns(sql, i);
        PlainFollows(sql, i, i + 1);
        LexIsKept(sql, i + 1, i + 1);
        KeptBehind(sql, i, i + 1, Lex(sql, i + 1, i + 1).lexemes);
      } else {
        WordsAreKept(sql, i, lastPos);
      }
    }
  }

  lemma OneByteRuns(sql: string, i: nat)
    requires i < |sql| && (sql[i] == ';' || IsSpace(sql[i]))
    ensures PlainRun(sql, i, i + 1)
  {
  }

  lemma {:induction false} QuotedIsKept(sql: string, i: nat, state: TokenizeState)
    requires IsBytes(sql) && i < |sql| && (sql[i] == '"' || sql[i] == '\'')
    requires AllSafe(sql, AfterQuote(sql, i, state, CloseQuote(sql, i + 1, sql[i])).lexemes)
    ensures AllKept(sql, i, AfterQuote(sql, i, state, CloseQuote(sql, i + 1, sql[i])).lexemes)
    decreases |sql| - i, 1
  {
    hide CloseQuote, AfterQuote, AllSafe, AllKept, Follows, Skips;
    var close := CloseQuote(sql, i + 1, sql[i]);
    if close.Some? {
      QuoteFollows(sql, i, close.value);
    }
    QuoteIsKept(sql, i, state, close);
  }

  // ---------------------------------------------------------------- the theorems

  /** Every literal in the text, or the one at hand at least, is found by a scan that keeps clear of it. */
  ghost predicate IsKeptClear(sql: string, lexeme: Lexeme) {
    forall u :: u in Found(Regular, sql, 0) ==> End(u) <= lexeme.start || lexeme.end <= u.pos
  }

  /** When the scan comes out of every block comment in mode Regular, and the markers of every dollar quote are
      clear, no Unicode space that is replaced touches a literal. */
  lemma LiteralsAreKept(sql: string, k: nat)
    requires IsBytes(sql) && AllSafe(sql, Lex(sql, 0, 0).lexemes)
    requires k < |Lex(sql, 0, 0).lexemes| && IsLiteralAt(sql, Lex(sql, 0, 0).lexemes[k])
    ensures IsKeptClear(sql, Lex(sql, 0, 0).lexemes[k])
  {
    hide Lex, AllSafe, Found, SpaceLength, Passes;
    LexIsKept(sql, 0, 0);
    var lexeme := Lex(sql, 0, 0).lexemes[k];
    assert IsKept(sql, 0, lexeme);
    assert sql[lexeme.start] < '\U{80}';
    assert sql[0..] == sql;
    forall u | u in Found(Regular, sql, 0)
      ensures End(u) <= lexeme.start || lexeme.end <= u.pos
    {
      FoundExactly(Regular, sql, 0, u);
      SpaceIsNotAscii(sql, u.pos);
      assert Stands(Regular, sql, 0, u.pos);
    }
  }

  function SpansBefore(spaces: seq<UnicodeSpace>, at: nat): (n: nat)
    ensures n <= |spaces| && (forall k :: 0 <= k < n ==> spaces[k].pos < at) && (n < |spaces| ==> at <= spaces[n].pos)
  {
    if spaces == [] || spaces[0].pos >= at then 0 else 1 + SpansBefore(spaces[1..], at)
  }

  /** Such a literal comes through the replacement unchanged, as far to the left as the spans before it saved. */
  lemma LiteralComesThrough(sql: string, lexeme: Lexeme)
    requires lexeme.start <= lexeme.end <= |sql| && IsKeptClear(sql, lexeme)
    ensures var place := lexeme.start - Saved(Found(Regular, sql, 0)[..SpansBefore(Found(Regular, sql, 0), lexeme.start)]);
            var stripped := Clean(Regular, sql);
            lexeme.start < lexeme.end ==>
              0 <= place && place + lexeme.end - lexeme.start <= |stripped|
              && stripped[place..place + lexeme.end - lexeme.start] == sql[lexeme.start..lexeme.end]
  {
    hide Found, Clean, Rewritten, Saved, AreSpans, Next;
    var spaces, length := Found(Regular, sql, 0), lexeme.end - lexeme.start;
    var n := SpansBefore(spaces, lexeme.start);
    AllRewritten(sql);
    var place := lexeme.start - Saved(spaces[..n]);
    if n > 0 {
      assert spaces[n - 1] in spaces;
    }
    if n < |spaces| {
      assert spaces[n] in spaces;
      SpanIsProper(sql, spaces, n);
    }
    forall j: nat | j < length
      ensures IsSameByte(sql, lexeme.start, Clean(Regular, sql), place, j)
    {
      OtherBytesStay(sql, spaces, |sql|, n, lexeme.start + j);
    }
    if length > 0 {
      SameStretch(sql, lexeme.start, Clean(Regular, sql), place, length);
    }
  }

  lemma SpanIsProper(sql: string, spaces: seq<UnicodeSpace>, n: nat)
    requires AreSpans(sql, spaces, |sql|) && n < |spaces|
    ensures spaces[n].pos < End(spaces[n])
  {
    hide SpaceLength;
    assert IsSpaceAt(sql, spaces[n]);
  }

  lemma AllRewritten(sql: string)
    ensures AreSpans(sql, Found(Regular, sql, 0), |sql|)
    ensures Rewritten(sql, Found(Regular, sql, 0), |sql|) == Clean(Regular, sql)
  {
    hide Found, Clean, Next;
    NoSpans(sql, 0);
    UnicodeScanner.FoundRewrites(sql, 0, [], Regular);
    assert sql[0..] == sql && [] + Found(Regular, sql, 0) == Found(Regular, sql, 0) && sql[..0] == "";
  }

  predicate IsSameByte(s: string, i: nat, t: string, j: int, k: nat) {
    0 <= j + k < |t| && i + k < |s| && t[j + k] == s[i + k]
  }

  lemma SameStretch(s: string, i: nat, t: string, j: int, length: nat)
    requires length > 0 && i + length <= |s| && forall k: nat :: k < length ==> IsSameByte(s, i, t, j, k)
    ensures 0 <= j && j + length <= |t| && t[j..j + length] == s[i..i + length]
  {
    assert IsSameByte(s, i, t, j, 0) && IsSameByte(s, i, t, j, length - 1);
    var a, b := t[j..j + length], s[i..i + length];
    forall k | 0 <= k < |a|
      ensures a[k] == b[k]
    {
      assert IsSameByte(s, i, t, j, k);
    }
  }

  /** For example, a quote in a block comment makes the scan take the next literal for plain text, and replace a
      space in it. */
  lemma QuoteInComment()
    ensures var sql := "/*'*/'\U{C2}\U{A0}x'";
            && Lex(sql, 0, 0).lexemes == [Lexeme.Comment(0, 5), WordOf(sql, 5, 10)] && IsLiteralAt(sql, WordOf(sql, 5, 10))
            && Found(Regular, sql, 0) == [UnicodeSpace(6, 2)] && Clean(Regular, sql) == "/*'*/' x'"
  {
    hide Lex, Found, Clean, Rewritten, AreSpans;
    var sql := "/*'*/'\U{C2}\U{A0}x'";
    CommentThenLiteral(sql);
    CommentThenSpace(sql);
    AllRewritten(sql);
    RewrittenOnce(sql);
  }

  lemma CommentThenLiteral(sql: string)
    requires sql == "/*'*/'\U{C2}\U{A0}x'"
    ensures Lex(sql, 0, 0).lexemes == [Lexeme.Comment(0, 5), WordOf(sql, 5, 10)]
  {
    assert BlockEnd(sql, 3) == Some(5);
    assert BlockEnd(sql, 2) == Some(5);
    assert CloseQuote(sql, 9, '\'') == Some(10);
    assert CloseQuote(sql, 8, '\'') == Some(10);
    assert CloseQuote(sql, 7, '\'') == Some(10);
    assert CloseQuote(sql, 6, '\'') == Some(10);
    assert Lex(sql, 10, 10).lexemes == [];
    assert Lex(sql, 5, 5).lexemes == [WordOf(sql, 5, 10)];
    assert [Lexeme.Comment(0, 5)] + [WordOf(sql, 5, 10)] == [Lexeme.Comment(0, 5), WordOf(sql, 5, 10)];
  }

  lemma FoundOnwards(sql: string, i: nat, mode: Mode, next: Mode, to: nat)
    requires i <= to <= |sql| && Next(mode, sql[i..]) == Go(next, to - i) && !(mode.Regular? && SpaceLength(sql[i..]) > 0)
    ensures Found(mode, sql[i..], i) == Found(next, sql[to..], to)
  {
    hide Found, Next, SpaceLength;
    MovesFind(mode, sql[i..], i);
    assert sql[i..][to - i..] == sql[to..];
  }

  lemma CommentThenSpace(sql: string)
    requires sql == "/*'*/'\U{C2}\U{A0}x'"
    ensures Found(Regular, sql, 0) == [UnicodeSpace(6, 2)]
  {
    hide Found;
    assert sql[0..] == sql;
    FoundOnwards(sql, 0, Regular, Regular, 1);
    FoundOnwards(sql, 1, Regular, Regular, 2);
    FoundOnwards(sql, 2, Regular, Quoted('\''), 3);
    FoundOnwards(sql, 3, Quoted('\''), Quoted('\''), 4);
    FoundOnwards(sql, 4, Quoted('\''), Quoted('\''), 5);
    FoundOnwards(sql, 5, Quoted('\''), Regular, 6);
    MovesFind(Regular, sql[6..], 6);
    assert sql[6..][2..] == sql[8..];
    MovesFind(Regular, sql[8..], 8);
  }

  lemma RewrittenOnce(sql: string)
    requires sql == "/*'*/'\U{C2}\U{A0}x'"
    ensures Rewritten(sql, [UnicodeSpace(6, 2)], |sql|) == "/*'*/' x'"
  {
    assert [UnicodeSpace(6, 2)][..0] == [];
    assert Rewritten(sql, [], 6) == sql[..6];
    assert sql[..6] + " " + sql[8..] == "/*'*/' x'";
  }
}
