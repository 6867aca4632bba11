/**
 What begins at a position of the text and where it ends, told on the characters alone: how far words, numbers and
 operators go, at which quote a literal closes, and where comments and dollar quotes end.  The proofs say that the
 tokenizer reads exactly this.
 */
module SqlLexemes {
  import opened Options
  import opened SqlCharacters
  import opened SqlLexer
  import opened SqlTokenizer
  import opened SqlCoverage
  import opened Texts

  // ---------------------------------------------------------------- characters

  predicate IsBlank(c: char) { c in {' ', '\t', '\n', '\U{0B}', '\U{0C}', '\r'} }

  /** The characters that operators are made of. */
  predicate IsSign(c: char) {
    c in {'!', '%', '&', '*', '+', '/', ':', '<', '=', '>', '@', '\\', '^', '`', '|', '~'}
  }

  /** The characters that are tokens by themselves. */
  predicate IsSingle(c: char) { c in {'(', ')', '{', '}', '[', ']', ',', '?', '-', '#'} }

  /** The characters that words are made of: letters, digits, underscores and everything outside of ASCII. */
  predicate IsLetter(c: char) {
    'A' <= c <= 'Z' || 'a' <= c <= 'z' || '0' <= c <= '9' || c == '_' || c >= '\U{7F}' || (c < ' ' && !IsBlank(c))
  }

  predicate IsFigure(c: char) { '0' <= c <= '9' || c == '.' }

  lemma Classes(c: char)
    ensures IsSpace(c) <==> IsBlank(c)
    ensures IsOperatorCharacter(c) <==> IsSign(c)
    ensures IsSingleByteOperator(c) <==> IsSingle(c) || c == '$'
    ensures IsKeywordCharacter(c) <==> IsLetter(c)
    ensures IsInitialNumber(c) <==> IsFigure(c)
    ensures IsPunctuation(c) <==> IsSign(c) || IsSingle(c) || c in {'$', '\'', '"', ';', '.'}
    ensures IsNewline(c) <==> c == '\n' || c == '\r'
    ensures IsStringPrefix(c) <==> c in {'N', 'n', 'X', 'x', 'E', 'e', 'B', 'b'}
    ensures IsDollarTagCharacter(c) <==>
              'A' <= c <= 'Z' || 'a' <= c <= 'z' || '0' <= c <= '9' || c == '_' || '\U{80}' <= c <= '\U{FF}'
  {
  }

  /** The text at `i` begins with a literal: a quote, or one of these letters and a quote. */
  predicate BeginsLiteral(sql: string, i: nat) {
    i < |sql| && (sql[i] == '\'' || sql[i] == '"' || BeginsPrefixed(sql, i))
  }

  predicate BeginsPrefixed(sql: string, i: nat) {
    i + 1 < |sql| && sql[i] in {'N', 'n', 'X', 'x', 'E', 'e', 'B', 'b'} && sql[i + 1] == '\''
  }

  predicate BeginsComment(sql: string, i: nat) {
    i + 1 < |sql| && ((sql[i] == '-' && sql[i + 1] == '-') || (sql[i] == '/' && sql[i + 1] == '*'))
  }

  /** One of the operators of two or three characters. */
  predicate BeginsFixed(sql: string, i: nat, n: nat) {
    || (n == 3 && i + 2 < |sql| && sql[i] == '-' && sql[i + 1] == '>' && sql[i + 2] == '>')
    || (n == 2 && i + 1 < |sql| && !(i + 2 < |sql| && sql[i] == '-' && sql[i + 1] == '>' && sql[i + 2] == '>')
        && (sql[i], sql[i + 1]) in {(':', ':'), (':', '='), ('-', '>'), ('*', '*'), ('/', '/')})
  }

  // ---------------------------------------------------------------- words

  /** A word goes on as far as letters do. */
  lemma WordGoesOn(sql: string, i: nat, lastPos: nat) returns (end: nat)
    requires i < |sql| && IsLetter(sql[i]) && !('0' <= sql[i] <= '9') && !BeginsPrefixed(sql, i)
    ensures i < end <= |sql| && (forall k :: i <= k < end ==> IsLetter(sql[k])) && (end < |sql| ==> !IsLetter(sql[end]))
    ensures Lex(sql, i, lastPos)
         == if end == |sql| then Lexing([], Keyword, i) else Then([Word(Token(sql[i..end], i), i, end)], Lex(sql, end, end))
  {
    Classes(sql[i]);
    end := WordEnd(sql, i + 1);
    LettersEnd(sql, i + 1);
    hide AfterQuote, AfterComment, AfterOperator, AfterNumber, LexDollar, WordEnd;
    assert Lex(sql, i, lastPos) == AfterWord(sql, i, end);
  }

  lemma {:induction false} LettersEnd(sql: string, i: nat)
    requires i <= |sql|
    ensures var end := WordEnd(sql, i);
            && (forall k :: i <= k < end ==> IsLetter(sql[k])) && (end < |sql| ==> !IsLetter(sql[end]))
    decreases |sql| - i
  {
    hide IsLetter, IsKeywordCharacter;
    if i < |sql| {
      Classes(sql[i]);
      if IsKeywordCharacter(sql[i]) {
        LettersEnd(sql, i + 1);
      }
    }
  }

  // ---------------------------------------------------------------- numbers

  /** The character may stand in a number, behind its first one: a digit or dot; an underscore before one; an `e`, unless
      behind another; a sign behind an `e`. */
  predicate MayStand(sql: string, k: nat)
    requires 0 < k < |sql|
  {
    || IsFigure(sql[k])
    || (sql[k] == '_' && k + 1 < |sql| && IsFigure(sql[k + 1]))
    || (sql[k] in {'e', 'E'} && sql[k - 1] !in {'e', 'E'})
    || (sql[k] in {'+', '-'} && sql[k - 1] in {'e', 'E'})
  }

  /** The number that begins at `i`: characters may stand in it up to `far`, and what is behind the last digit or dot
      among them does not belong to it. */
  ghost predicate IsNumberUpTo(sql: string, i: nat, end: nat, far: nat) {
    && i < end <= far < |sql| && IsFigure(sql[i])
    && (forall k :: i < k < far ==> MayStand(sql, k)) && !MayStand(sql, far)
    && IsFigure(sql[end - 1]) && forall k :: end <= k < far ==> !IsFigure(sql[k])
  }

  lemma NumberCharacters(sql: string, k: nat)
    requires 0 < k < |sql|
    ensures NumberContinues(sql, k) <==> MayStand(sql, k)
  {
  }

  lemma {:induction false} FiguresEnd(sql: string, i: nat)
    requires 0 < i <= |sql|
    ensures var far := NumberEnd(sql, i);
            && (forall k :: i <= k < far ==> MayStand(sql, k)) && (far < |sql| ==> !MayStand(sql, far))
    decreases |sql| - i
  {
    hide MayStand, NumberContinues;
    if i < |sql| {
      NumberCharacters(sql, i);
      if NumberContinues(sql, i) {
        FiguresEnd(sql, i + 1);
      }
    }
  }

  lemma {:induction false} LastFigure(sql: string, start: nat, i: nat)
    requires start < i <= |sql| && IsFigure(sql[start])
    ensures var end := Backtrack(sql, start, i);
            IsFigure(sql[end - 1]) && forall k :: end <= k < i ==> !IsFigure(sql[k])
    decreases i
  {
    if !IsFigure(sql[i - 1]) {
      LastFigure(sql, start, i - 1);
    }
  }

  /** Where a number ends. */
  lemma NumberGoesOn(sql: string, i: nat, lastPos: nat) returns (end: nat, far: nat)
    requires i < |sql| && IsFigure(sql[i])
    ensures i < end <= far <= |sql|
    ensures far < |sql| ==>
              IsNumberUpTo(sql, i, end, far)
              && Lex(sql, i, lastPos) == Then([Word(Token(sql[i..end], i), i, end)], Lex(sql, end, end))
    ensures far == |sql| ==>
              (forall k :: i < k < far ==> MayStand(sql, k)) && Lex(sql, i, lastPos) == Lexing([], Numeric, i)
  {
    Classes(sql[i]);
    far := NumberEnd(sql, i + 1);
    end := Backtrack(sql, i, far);
    FiguresEnd(sql, i + 1);
    LastFigure(sql, i, far);
    hide AfterQuote, AfterComment, AfterOperator, AfterWord, LexDollar, NumberEnd, Backtrack, MayStand, NumberContinues;
    assert Lex(sql, i, lastPos) == AfterNumber(sql, i, far);
  }

  /** The text up to `end` is the number at `i` if and only if it ends there. */
  lemma NumberExactly(sql: string, i: nat, lastPos: nat, end: nat)
    requires i < end <= |sql| && IsFigure(sql[i])
    ensures Lex(sql, i, lastPos) == Then([Word(Token(sql[i..end], i), i, end)], Lex(sql, end, end))
       <==> exists far :: IsNumberUpTo(sql, i, end, far)
  {
    hide MayStand, IsFigure, Lex;
    var e, far := NumberGoesOn(sql, i, lastPos);
    if far < |sql| {
      FirstWordIs(sql, i, e, end);
      forall other | IsNumberUpTo(sql, i, end, other)
        ensures end == e
      {
        OneNumber(sql, i, e, far, end, other);
      }
    } else {
      assert Lex(sql, i, lastPos).lexemes == [];
      NoEndOfNumber(sql, i, end);
    }
  }

  lemma NoEndOfNumber(sql: string, i: nat, end: nat)
    requires forall k :: i < k < |sql| ==> MayStand(sql, k)
    ensures forall far :: !IsNumberUpTo(sql, i, end, far)
  {
    hide MayStand;
  }

  lemma OneNumber(sql: string, i: nat, e: nat, far: nat, end: nat, other: nat)
    requires IsNumberUpTo(sql, i, e, far) && IsNumberUpTo(sql, i, end, other)
    ensures e == end
  {
    hide MayStand, IsFigure;
    assert far == other;
  }

  lemma FirstWordIs(sql: string, i: nat, e: nat, end: nat)
    requires i < e <= |sql| && i < end <= |sql|
    ensures (Then([Word(Token(sql[i..e], i), i, e)], Lex(sql, e, e))
             == Then([Word(Token(sql[i..end], i), i, end)], Lex(sql, end, end))) ==> e == end
  {
    hide Lex;
    assert ([Word(Token(sql[i..e], i), i, e)] + Lex(sql, e, e).lexemes)[0].end == e;
  }

  // ---------------------------------------------------------------- well-formed numbers

  /** Digits, with single underscores between them. */
  predicate IsDigits(t: string) {
    && t != "" && '0' <= t[0] <= '9' && '0' <= t[|t| - 1] <= '9'
    && forall k :: 0 <= k < |t| - 1 ==> '0' <= t[k] <= '9' || (t[k] == '_' && '0' <= t[k + 1] <= '9')
  }

  /** A dot and perhaps digits. */
  predicate IsFraction(t: string) { t != "" && t[0] == '.' && (|t| == 1 || IsDigits(t[1..])) }

  /** An `e`, perhaps a sign, and digits. */
  predicate IsExponent(t: string) {
    t != "" && t[0] in {'e', 'E'} && (IsDigits(t[1..]) || (|t| > 1 && t[1] in {'+', '-'} && IsDigits(t[2..])))
  }

  /** Digits, a fraction or both, and perhaps an exponent. */
  ghost predicate IsNumeral(t: string, whole: string, fraction: string, exponent: string) {
    && t == whole + fraction + exponent
    && (whole == "" || IsDigits(whole)) && (fraction == "" || IsFraction(fraction)) && (exponent == "" || IsExponent(exponent))
    && (whole != "" || |fraction| > 1)
  }

  /** Digits stand in a number, behind anything but an `e` that needs none of them. */
  lemma DigitsStand(sql: string, i: nat, t: string)
    requires 0 < i && Has(sql, i, t) && IsDigits(t)
    ensures forall k :: i <= k < i + |t| ==> MayStand(sql, k)
    ensures IsFigure(sql[i + |t| - 1])
  {
    forall k | i <= k < i + |t|
      ensures MayStand(sql, k)
    {
      HasChar(sql, i, t, k - i);
      if k - i < |t| - 1 {
        HasChar(sql, i, t, k - i + 1);
      }
    }
    HasChar(sql, i, t, |t| - 1);
  }

  /** A part of a number: all its characters but the very first may stand in it, and it ends in a digit or dot. */
  ghost predicate Stands(sql: string, i: nat, t: string) {
    && i + |t| <= |sql|
    && (forall k :: i <= k < i + |t| && 0 < k ==> MayStand(sql, k))
    && (t != "" ==> IsFigure(sql[i + |t| - 1]))
  }

  lemma FractionStands(sql: string, i: nat, t: string)
    requires 0 < i && Has(sql, i, t) && IsFraction(t)
    ensures Stands(sql, i, t)
  {
    HasChar(sql, i, t, 0);
    if |t| > 1 {
      assert t == [t[0]] + t[1..];
      HasParts(sql, i, [t[0]], t[1..]);
      DigitsStand(sql, i + 1, t[1..]);
    }
  }

  lemma ExponentStands(sql: string, i: nat, t: string)
    requires 0 < i <= |sql| && IsFigure(sql[i - 1]) && Has(sql, i, t) && IsExponent(t)
    ensures Stands(sql, i, t)
  {
    hide IsDigits;
    HasChar(sql, i, t, 0);
    if IsDigits(t[1..]) {
      LastDigitsStand(sql, i, t, 1);
    } else {
      HasChar(sql, i, t, 1);
      LastDigitsStand(sql, i, t, 2);
    }
  }

  lemma LastDigitsStand(sql: string, i: nat, t: string, n: nat)
    requires Has(sql, i, t) && 0 < n <= |t| && IsDigits(t[n..])
    ensures forall k :: i + n <= k < i + |t| ==> MayStand(sql, k)
    ensures n < |t| && IsFigure(sql[i + |t| - 1])
  {
    hide MayStand, IsFigure;
    assert t == t[..n] + t[n..];
    HasParts(sql, i, t[..n], t[n..]);
    DigitsStand(sql, i + n, t[n..]);
  }

  /** Whole digits, of which the first begins the number. */
  lemma WholeStands(sql: string, i: nat, t: string)
    requires Has(sql, i, t) && IsDigits(t)
    ensures IsFigure(sql[i]) && IsFigure(sql[i + |t| - 1]) && forall k :: i < k < i + |t| ==> MayStand(sql, k)
  {
    HasChar(sql, i, t, 0);
    forall k | i < k < i + |t|
      ensures MayStand(sql, k)
    {
      HasChar(sql, i, t, k - i);
      if k - i < |t| - 1 {
        HasChar(sql, i, t, k - i + 1);
      }
    }
    HasChar(sql, i, t, |t| - 1);
  }

  lemma FractionBegins(sql: string, i: nat, t: string)
    requires Has(sql, i, t) && IsFraction(t)
    ensures IsFigure(sql[i]) && IsFigure(sql[i + |t| - 1]) && forall k :: i < k < i + |t| ==> MayStand(sql, k)
  {
    HasChar(sql, i, t, 0);
    if |t| > 1 {
      assert t == [t[0]] + t[1..];
      HasParts(sql, i, [t[0]], t[1..]);
      DigitsStand(sql, i + 1, t[1..]);
    }
  }

  lemma NumeralStands(sql: string, i: nat, t: string, whole: string, fraction: string, exponent: string)
    requires Has(sql, i, t) && IsNumeral(t, whole, fraction, exponent)
    ensures t != "" && IsFigure(sql[i]) && IsFigure(sql[i + |t| - 1]) && forall k :: i < k < i + |t| ==> MayStand(sql, k)
  {
    hide IsDigits, IsFraction, IsExponent, MayStand, IsFigure;
    HasParts(sql, i, whole + fraction, exponent);
    HasParts(sql, i, whole, fraction);
    var j, m := i + |whole|, i + |whole| + |fraction|;
    if whole != "" {
      WholeStands(sql, i, whole);
      if fraction != "" {
        FractionStands(sql, j, fraction);
      }
    } else {
      FractionBegins(sql, i, fraction);
    }
    if exponent != "" {
      ExponentStands(sql, m, exponent);
    }
  }

  /** A well-formed number, with nothing behind it that could belong to it, is one token, wherever it stands. */
  lemma NumeralIsOneToken(sql: string, i: nat, lastPos: nat, t: string, whole: string, fraction: string, exponent: string)
    requires Has(sql, i, t) && IsNumeral(t, whole, fraction, exponent)
    requires i + |t| < |sql| ==> !IsFigure(sql[i + |t|]) && sql[i + |t|] !in {'_', 'e', 'E'}
    ensures i + |t| < |sql| ==> Lex(sql, i, lastPos) == Then([Word(Token(t, i), i, i + |t|)], Lex(sql, i + |t|, i + |t|))
    ensures i + |t| == |sql| ==> Lex(sql, i, lastPos) == Lexing([], Numeric, i)
  {
    hide IsNumeral, Lex;
    NumeralStands(sql, i, t, whole, fraction, exponent);
    var after := i + |t|;
    if after < |sql| {
      assert IsNumberUpTo(sql, i, after, after);
      NumberExactly(sql, i, lastPos, after);
      assert sql[i..after] == t;
    } else {
      var end, far := NumberGoesOn(sql, i, lastPos);
    }
  }

  // ---------------------------------------------------------------- operators

  /** One token for each '+'. */
  function Pluses(start: nat, end: nat): seq<Lexeme>
    requires start <= end
  {
    seq(end - start, k requires 0 <= k < end - start => Word(Token("+", start + k), start + k, start + k + 1))
  }

  predicate IsMark(c: char) { c in {'~', '!', '@', '#', '%', '^', '&', '|', '`', '?'} }

  /** A run of signs is one operator; without one of the marks it gives back its trailing '+', each a token. */
  lemma OperatorGoesOn(sql: string, i: nat, lastPos: nat) returns (end: nat, far: nat)
    requires i < |sql| && IsSign(sql[i]) && !BeginsComment(sql, i) && !BeginsFixed(sql, i, 2)
    ensures i < far <= |sql| && (forall k :: i <= k < far ==> IsSign(sql[k])) && (far < |sql| ==> !IsSign(sql[far]))
    ensures i <= end <= far
    ensures if exists k :: i <= k < far && IsMark(sql[k]) then end == far
            else (forall k :: end <= k < far ==> sql[k] == '+') && (i < end ==> sql[end - 1] != '+')
    ensures Lex(sql, i, lastPos)
         == if far == |sql| then Lexing([], Operator, i)
            else Then((if i < end then [Word(Token(sql[i..end], i), i, end)] else []) + Pluses(end, far), Lex(sql, far, far))
  {
    Classes(sql[i]);
    far := OperatorEnd(sql, i + 1);
    end := OperatorTrim(sql, i, far);
    SignsEnd(sql, i + 1);
    MarksFound(sql, i, far);
    hide AfterQuote, AfterComment, AfterNumber, AfterWord, LexDollar, OperatorEnd, OperatorLexemes, HasSpecialOperatorCharacter,
         TrimPlus;
    assert Lex(sql, i, lastPos) == AfterOperator(sql, i, far);
    TrimmedPluses(sql, i, far);
  }

  lemma {:induction false} SignsEnd(sql: string, i: nat)
    requires i <= |sql|
    ensures var end := OperatorEnd(sql, i);
            && (forall k :: i <= k < end ==> IsSign(sql[k])) && (end < |sql| ==> !IsSign(sql[end]))
    decreases |sql| - i
  {
    hide IsSign, IsOperatorCharacter;
    if i < |sql| {
      Classes(sql[i]);
      if IsOperatorCharacter(sql[i]) {
        SignsEnd(sql, i + 1);
      }
    }
  }

  lemma {:induction false} MarksFound(sql: string, i: nat, end: nat)
    requires i <= end <= |sql|
    ensures HasSpecialOperatorCharacter(sql, i, end) <==> exists k :: i <= k < end && IsMark(sql[k])
    decreases end - i
  {
    if i < end {
      MarksFound(sql, i + 1, end);
    }
  }

  lemma TrimmedPluses(sql: string, i: nat, far: nat)
    requires i < far <= |sql|
    ensures var end := OperatorTrim(sql, i, far);
            OperatorLexemes(sql, i, far)
            == (if i < end then [Word(Token(sql[i..end], i), i, end)] else []) + Pluses(end, far)
  {
    hide TrimPlus, HasSpecialOperatorCharacter;
    PlusesAre(sql, OperatorTrim(sql, i, far), far);
  }

  lemma {:induction false} PlusesAre(sql: string, start: nat, end: nat)
    requires start <= end <= |sql| && forall k :: start <= k < end ==> sql[k] == '+'
    ensures SingleCharacters(sql, start, end) == Pluses(start, end)
    decreases end - start
  {
    if start < end {
      PlusesAre(sql, start + 1, end);
      assert sql[start..start + 1] == "+";
      assert Pluses(start, end) == [Word(Token("+", start), start, start + 1)] + Pluses(start + 1, end);
    }
  }

  /** An operator of two or three characters is a token, and so is a single one. */
  lemma FixedIsToken(sql: string, i: nat, lastPos: nat, n: nat)
    requires !BeginsComment(sql, i)
    requires BeginsFixed(sql, i, n) || (n == 1 && i < |sql| && IsSingle(sql[i]) && !BeginsFixed(sql, i, 2) && !BeginsFixed(sql, i, 3))
    ensures Lex(sql, i, lastPos) == Then([Word(Token(sql[i..i + n], lastPos), i, i + n)], Lex(sql, i + n, i + n))
  {
    Classes(sql[i]);
    hide AfterQuote, AfterComment, AfterNumber, AfterWord, AfterOperator, LexDollar, Then;
    assert n == 1 ==> sql[i..i + 1] == [sql[i]];
  }

  // ---------------------------------------------------------------- spaces and statement ends

  lemma BlankIsSkipped(sql: string, i: nat, lastPos: nat)
    requires i < |sql|
    ensures IsBlank(sql[i]) ==> Lex(sql, i, lastPos) == Lex(sql, i + 1, i + 1)
    ensures sql[i] == ';' ==> Lex(sql, i, lastPos) == Then([StatementEnd(i, i + 1)], Lex(sql, i + 1, i + 1))
  {
  }

  // ---------------------------------------------------------------- literals

  /** At `b` ends a run of quotes, of which there are an odd number from `a` on. */
  ghost predicate EndsOddRun(sql: string, a: nat, b: nat, quote: char) {
    && a <= b < |sql| && (b + 1 < |sql| ==> sql[b + 1] != quote)
    && exists s: nat :: a <= s <= b && IsRun(sql, a, s, b, quote) && (b - s) % 2 == 0
  }

  ghost predicate IsRun(sql: string, a: nat, s: nat, b: nat, quote: char) {
    a <= s <= b < |sql| && (s == a || sql[s - 1] != quote) && forall k :: s <= k <= b ==> sql[k] == quote
  }

  /** A literal whose inside begins at `a` closes at the first odd run of quotes. */
  ghost predicate ClosesAt(sql: string, a: nat, end: nat, quote: char) {
    a < end && EndsOddRun(sql, a, end - 1, quote) && forall b :: a <= b < end - 1 ==> !EndsOddRun(sql, a, b, quote)
  }

  ghost predicate NeverCloses(sql: string, a: nat, quote: char) {
    forall b :: !EndsOddRun(sql, a, b, quote)
  }

  lemma {:induction false} CloseExactly(sql: string, a: nat, quote: char)
    requires a <= |sql|
    ensures match CloseQuote(sql, a, quote)
            case Some(end) => ClosesAt(sql, a, end, quote)
            case None => NeverCloses(sql, a, quote)
    decreases |sql| - a
  {
    hide EndsOddRun;
    if a < |sql| {
      if sql[a] != quote {
        CloseExactly(sql, a + 1, quote);
        RunsLater(sql, a, quote);
      } else if a + 1 < |sql| && sql[a + 1] == quote {
        CloseExactly(sql, a + 2, quote);
        RunsBehindPair(sql, a, quote);
      } else {
        SingleRun(sql, a, quote);
      }
    } else {
      NoRuns(sql, a, quote);
    }
  }

  lemma NoRuns(sql: string, a: nat, quote: char)
    requires a == |sql|
    ensures forall b :: !EndsOddRun(sql, a, b, quote)
  {
  }

  lemma SingleRun(sql: string, a: nat, quote: char)
    requires a < |sql| && sql[a] == quote && (a + 1 < |sql| ==> sql[a + 1] != quote)
    ensures EndsOddRun(sql, a, a, quote)
  {
    assert IsRun(sql, a, a, a, quote);
  }

  lemma RunsLater(sql: string, a: nat, quote: char)
    requires a < |sql| && sql[a] != quote
    ensures forall b :: EndsOddRun(sql, a, b, quote) <==> EndsOddRun(sql, a + 1, b, quote)
    ensures forall b: nat :: EndsOddRun(sql, a, b, quote) ==> b > a
  {
    forall b: nat
      ensures EndsOddRun(sql, a, b, quote) <==> EndsOddRun(sql, a + 1, b, quote)
    {
      if EndsOddRun(sql, a, b, quote) {
        var s: nat :| a <= s <= b && IsRun(sql, a, s, b, quote) && (b - s) % 2 == 0;
        assert s != a;
        assert IsRun(sql, a + 1, s, b, quote);
      }
      if EndsOddRun(sql, a + 1, b, quote) {
        var s: nat :| a + 1 <= s <= b && IsRun(sql, a + 1, s, b, quote) && (b - s) % 2 == 0;
        assert IsRun(sql, a, s, b, quote);
      }
    }
  }

  lemma RunsBehindPair(sql: string, a: nat, quote: char)
    requires a + 1 < |sql| && sql[a] == quote && sql[a + 1] == quote
    ensures forall b :: EndsOddRun(sql, a, b, quote) <==> EndsOddRun(sql, a + 2, b, quote)
    ensures forall b: nat :: EndsOddRun(sql, a, b, quote) ==> b > a + 1
  {
    forall b: nat
      ensures EndsOddRun(sql, a, b, quote) <==> EndsOddRun(sql, a + 2, b, quote)
    {
      if EndsOddRun(sql, a, b, quote) {
        var s: nat :| a <= s <= b && IsRun(sql, a, s, b, quote) && (b - s) % 2 == 0;
        assert s != a + 1;
        assert IsRun(sql, a + 2, if s == a then a + 2 else s, b, quote);
      }
      if EndsOddRun(sql, a + 2, b, quote) {
        var s: nat :| a + 2 <= s <= b && IsRun(sql, a + 2, s, b, quote) && (b - s) % 2 == 0;
        assert IsRun(sql, a, if s == a + 2 then a else s, b, quote);
      }
    }
  }

  /** A literal ends behind the last quote of the first odd run of its own quotes; with none it is open at the end. */
  lemma LiteralGoesOn(sql: string, i: nat, lastPos: nat) returns (end: Option<nat>)
    requires BeginsLiteral(sql, i)
    ensures var open := if BeginsPrefixed(sql, i) then i + 1 else i;
            match end
            case Some(e) =>
              && i < e <= |sql| && ClosesAt(sql, open + 1, e, sql[open])
              && Lex(sql, i, lastPos) == Then([Word(Token(sql[i..e], i), i, e)], Lex(sql, e, e))
            case None =>
              && NeverCloses(sql, open + 1, sql[open])
              && Lex(sql, i, lastPos) == Lexing([], if sql[i] == '"' then QuotedIdentifier else StringLiteral, i)
  {
    Classes(sql[i]);
    var open := if BeginsPrefixed(sql, i) then i + 1 else i;
    end := CloseQuote(sql, open + 1, sql[open]);
    CloseExactly(sql, open + 1, sql[open]);
    hide AfterComment, AfterNumber, AfterWord, AfterOperator, LexDollar, CloseQuote, ClosesAt, EndsOddRun, NeverCloses;
    assert Lex(sql, i, lastPos) == AfterQuote(sql, i, if sql[i] == '"' then QuotedIdentifier else StringLiteral, end);
  }

  // ---------------------------------------------------------------- comments

  predicate ClosesLine(sql: string, k: nat) { k < |sql| && (sql[k] == '\n' || sql[k] == '\r') }

  predicate ClosesStar(sql: string, k: nat) { k + 1 < |sql| && sql[k] == '*' && sql[k + 1] == '/' }

  /** A comment ends behind the first newline, or behind the first star and slash; with none it is open at the end. */
  lemma CommentGoesOn(sql: string, i: nat, lastPos: nat) returns (end: Option<nat>)
    requires BeginsComment(sql, i)
    ensures var line := sql[i] == '-';
            match end
            case Some(e) =>
              && i + 2 < e <= |sql| && Lex(sql, i, lastPos) == Then([Comment(i, e)], Lex(sql, e, e))
              && (if line then ClosesLine(sql, e - 1) && forall k :: i + 2 <= k < e - 1 ==> !ClosesLine(sql, k)
                  else e >= i + 4 && ClosesStar(sql, e - 2) && forall k :: i + 2 <= k < e - 2 ==> !ClosesStar(sql, k))
            case None =>
              && Lex(sql, i, lastPos) == Lexing([], if line then SingleLineComment else MultiLineComment, lastPos)
              && forall k :: i + 2 <= k < |sql| ==> if line then !ClosesLine(sql, k) else !ClosesStar(sql, k)
  {
    if sql[i] == '-' {
      end := LineEnd(sql, i + 2);
      LineExactly(sql, i + 2);
      hide AfterQuote, AfterNumber, AfterWord, AfterOperator, LexDollar, LineEnd, BlockEnd, ClosesLine;
      assert Lex(sql, i, lastPos) == AfterComment(sql, i, SingleLineComment, lastPos, end);
    } else {
      end := BlockEnd(sql, i + 2);
      BlockExactly(sql, i + 2);
      hide AfterQuote, AfterNumber, AfterWord, AfterOperator, LexDollar, LineEnd, BlockEnd, ClosesStar;
      assert Lex(sql, i, lastPos) == AfterComment(sql, i, MultiLineComment, lastPos, end);
    }
  }

  lemma {:induction false} LineExactly(sql: string, i: nat)
    requires i <= |sql|
    ensures match LineEnd(sql, i)
            case Some(e) => i < e && ClosesLine(sql, e - 1) && forall k :: i <= k < e - 1 ==> !ClosesLine(sql, k)
            case None => forall k :: i <= k < |sql| ==> !ClosesLine(sql, k)
    decreases |sql| - i
  {
    if i < |sql| && !ClosesLine(sql, i) {
      LineExactly(sql, i + 1);
    }
  }

  lemma {:induction false} BlockExactly(sql: string, i: nat)
    requires i <= |sql|
    ensures match BlockEnd(sql, i)
            case Some(e) => i + 2 <= e && ClosesStar(sql, e - 2) && forall k :: i <= k < e - 2 ==> !ClosesStar(sql, k)
            case None => forall k :: i <= k < |sql| ==> !ClosesStar(sql, k)
    decreases |sql| - i
  {
    if i < |sql| && !ClosesStar(sql, i) {
      BlockExactly(sql, i + 1);
    }
  }

  // ---------------------------------------------------------------- dollars

  predicate IsTagCharacter(c: char) {
    'A' <= c <= 'Z' || 'a' <= c <= 'z' || '0' <= c <= '9' || c == '_' || '\U{80}' <= c <= '\U{FF}'
  }

  /** The next dollar sign, with nothing but a tag in between. */
  ghost predicate EndsTag(sql: string, i: nat, e: nat) {
    i <= e < |sql| && sql[e] == '$' && forall k :: i <= k < e ==> IsTagCharacter(sql[k])
  }

  ghost predicate HasNoTag(sql: string, i: nat) {
    forall e :: !EndsTag(sql, i, e)
  }

  lemma {:induction false} TagExactly(sql: string, i: nat)
    requires i <= |sql|
    ensures match TagEnd(sql, i) case Some(e) => EndsTag(sql, i, e) case None => HasNoTag(sql, i)
    decreases |sql| - i
  {
    if i < |sql| && sql[i] != '$' && IsTagCharacter(sql[i]) {
      TagExactly(sql, i + 1);
      assert forall e :: EndsTag(sql, i, e) ==> EndsTag(sql, i + 1, e);
    }
  }

  /** A dollar sign at the end of the text is left to the last word; before a digit or without a tag it is a token by
      itself. */
  lemma DollarAlone(sql: string, i: nat, lastPos: nat)
    requires i < |sql| && sql[i] == '$'
    ensures i + 1 == |sql| ==> Lex(sql, i, lastPos) == Lexing([], Standard, lastPos)
    ensures i + 1 < |sql| && '0' <= sql[i + 1] <= '9' ==>
              Lex(sql, i, lastPos) == Then([Word(Token("$", i), i, i + 1)], Lex(sql, i + 1, lastPos))
    ensures i + 1 < |sql| && !('0' <= sql[i + 1] <= '9') && HasNoTag(sql, i + 1) ==>
              Lex(sql, i, lastPos) == Then([Word(Token("$", i), i, i + 1)], Lex(sql, i + 1, i))
  {
    TagExactly(sql, i + 1);
    hide Lex, TagEnd, EndsTag;
    LexOfDollar(sql, i, lastPos);
    assert sql[i..i + 1] == "$";
  }

  /** Before a tag and another dollar sign it begins a quote, which ends at the first such tag between dollar signs;
      the token is what stands in between, quoted. */
  lemma DollarGoesOn(sql: string, i: nat, lastPos: nat, e: nat) returns (close: Option<nat>)
    requires i + 1 < |sql| && sql[i] == '$' && !('0' <= sql[i + 1] <= '9') && EndsTag(sql, i + 1, e)
    ensures var marker := sql[i..e + 1];
            match close
            case None =>
              Lex(sql, i, lastPos) == Lexing([], DollarQuotedString, i) && forall c :: c > e ==> !Has(sql, c, marker)
            case Some(c) =>
              && e < c && Has(sql, c, marker) && (forall b :: e < b < c ==> !Has(sql, b, marker))
              && Lex(sql, i, lastPos)
                 == Then([Word(Token(Requoted(sql[e + 1..c]), |marker|), i, c + |marker|)],
                         Lex(sql, c + |marker|, c + |marker|))
  {
    hide Lex, TagEnd, Requoted, MarkerAt, Has, Then, MarkerClose, MarkerOf, EndsTag;
    TagEnds(sql, i + 1, e);
    close := MarkerClose(sql, e + 1, MarkerOf(sql, i + 1));
    CloseIsFirst(sql, i, e);
    LexOfTag(sql, i, lastPos);
  }

  /** The closing marker is the first text like the opening one. */
  lemma CloseIsFirst(sql: string, i: nat, e: nat)
    requires i + 1 < |sql| && sql[i] == '$' && TagEnd(sql, i + 1) == Some(e)
    ensures var marker := sql[i..e + 1];
            match MarkerClose(sql, e + 1, MarkerOf(sql, i + 1))
            case None => forall c :: c > e ==> !Has(sql, c, marker)
            case Some(c) => e < c && Has(sql, c, marker) && forall b :: e < b < c ==> !Has(sql, b, marker)
  {
    hide TagEnd, MarkerOf, MarkerAt, MarkerClose, Has;
    MarkerIsSlice(sql, i, e);
    TextIsFirst(sql, e + 1, MarkerOf(sql, i + 1), sql[i..e + 1]);
  }

  lemma TextIsFirst(sql: string, from: nat, tag: string, marker: string)
    requires from <= |sql|
    requires |marker| == |tag| + 2 && marker[0] == '$' && marker[|tag| + 1] == '$' && marker[1..|tag| + 1] == tag
    ensures match MarkerClose(sql, from, tag)
            case None => forall c :: c >= from ==> !Has(sql, c, marker)
            case Some(c) => from <= c && Has(sql, c, marker) && forall b :: from <= b < c ==> !Has(sql, b, marker)
  {
    MarkerCloseIsFirst(sql, from, tag);
    hide MarkerAt, MarkerClose, Has;
    forall c: nat
      ensures MarkerAt(sql, c, tag) <==> Has(sql, c, marker)
    {
      MarkerIsText(sql, c, tag, marker);
    }
    MarkersInside(sql, tag);
  }

  lemma TagEnds(sql: string, i: nat, e: nat)
    requires EndsTag(sql, i, e)
    ensures TagEnd(sql, i) == Some(e)
  {
    hide TagEnd;
    TagExactly(sql, i);
    assert !HasNoTag(sql, i);
  }

  lemma MarkerIsSlice(sql: string, i: nat, e: nat)
    requires i + 1 < |sql| && sql[i] == '$' && TagEnd(sql, i + 1) == Some(e)
    ensures var tag, marker := MarkerOf(sql, i + 1), sql[i..e + 1];
            |marker| == |tag| + 2 && marker[0] == '$' && marker[|tag| + 1] == '$' && marker[1..|tag| + 1] == tag
  {
    hide TagEnd;
    SliceOfSlice(sql, i, e + 1, 1, e - i);
  }

  lemma MarkersInside(sql: string, tag: string)
    ensures forall c: nat :: MarkerAt(sql, c, tag) ==> c < |sql|
  {
  }

  lemma MarkerIsText(sql: string, c: nat, tag: string, marker: string)
    requires |marker| == |tag| + 2 && marker[0] == '$' && marker[|tag| + 1] == '$' && marker[1..|tag| + 1] == tag
    ensures MarkerAt(sql, c, tag) <==> Has(sql, c, marker)
  {
    if c + |marker| <= |sql| {
      var s := sql[c..c + |marker|];
      assert s[0] == sql[c] && s[|tag| + 1] == sql[c + |tag| + 1];
      SliceOfSlice(sql, c, c + |marker|, 1, |tag| + 1);
      assert s == [s[0]] + s[1..|tag| + 1] + [s[|tag| + 1]];
      assert marker == [marker[0]] + marker[1..|tag| + 1] + [marker[|tag| + 1]];
    }
  }
}
