/**
 Which Unicode spaces of a text are replaced, told on the text and the lexemes that the tokenizer makes of it.
 */
module UnicodeReplaced {
  import opened Options
  import opened SqlCharacters
  import opened SqlLexer
  import opened SqlTokenizer
  import opened SqlCoverage
  import opened SqlRetokenize
  import opened UnicodeSpaces
  import opened UnicodeMoves
  import opened UnicodeComments
  import opened UnicodeDollarQuotes
  import opened UnicodeRuns
  import opened UnicodeLiterals

  // ---------------------------------------------------------------- stretches of the text

  /** What the lexemes leave at the end of a text, as one more stretch. */
  function Left(sql: string, at: nat, state: TokenizeState): seq<Lexeme> {
    if at >= |sql| then []
    else if state == SingleLineComment || state == MultiLineComment then [Lexeme.Comment(at, |sql|)]
    else [WordOf(sql, at, |sql|)]
  }

  function Stretches(sql: string, i: nat, lexing: Lexing): seq<Lexeme> {
    lexing.lexemes + Left(sql, LeftAt(i, lexing), lexing.state)
  }

  /** A literal, or a comment with a byte at which the scan leaves mode Regular, as every line comment has. */
  predicate Hides(sql: string, l: Lexeme) {
    IsLiteralAt(sql, l) || (l.Comment? && exists k :: l.start <= k < l.end && k < |sql| && LeavesRegular(sql, k))
  }

  predicate HidesByte(sql: string, l: Lexeme, k: nat) { l.start <= k < l.end && Hides(sql, l) }

  predicate IsHidden(sql: string, stretches: seq<Lexeme>, k: nat) {
    exists n :: 0 <= n < |stretches| && HidesByte(sql, stretches[n], k)
  }

  /** A dollar sign at `j` and bytes of a tag behind it up to `k`. */
  predicate TagReaches(sql: string, j: nat, k: nat) {
    && j < k < |sql| && sql[j] == '$' && IsFirstTagByte(sql[j + 1])
    && forall l :: j < l <= k ==> IsTagByte(sql[l])
  }

  /** The byte is behind a dollar sign and bytes of a tag, outside of the hidden stretches. */
  predicate IsInTag(sql: string, stretches: seq<Lexeme>, from: nat, k: nat) {
    exists j: nat :: from <= j < k && TagReaches(sql, j, k) && !IsHidden(sql, stretches, j)
  }

  predicate SpaceAt(sql: string, k: nat) { k + 2 < |sql| && SpaceLength(sql[k..]) > 0 }

  /** From `i` on the scan stands at the Unicode spaces in the open that are in no tag. */
  ghost predicate Ground(sql: string, i: nat, stretches: seq<Lexeme>) {
    && (forall n :: 0 <= n < |stretches| ==> i <= stretches[n].start)
    && forall k: nat :: i <= k && SpaceAt(sql, k) && !IsHidden(sql, stretches, k) ==>
         (Stands(Regular, sql, i, k) <==> !IsInTag(sql, stretches, i, k))
  }

  // ---------------------------------------------------------------- one stretch and the rest

  /** The stretches lie between `i` and `e`. */
  ghost predicate AreWithin(first: seq<Lexeme>, i: nat, e: nat) {
    forall n :: 0 <= n < |first| ==> i <= first[n].start && first[n].end <= e
  }

  lemma HiddenThen(sql: string, first: seq<Lexeme>, i: nat, e: nat, rest: seq<Lexeme>, k: nat)
    requires AreWithin(first, i, e) && forall n :: 0 <= n < |rest| ==> e <= rest[n].start
    ensures IsHidden(sql, first + rest, k) <==> if k < e then IsHidden(sql, first, k) else IsHidden(sql, rest, k)
  {
    hide Hides;
    var all := first + rest;
    if n :| 0 <= n < |all| && HidesByte(sql, all[n], k) {
      assert all[n] == if n < |first| then first[n] else rest[n - |first|];
    }
    if n :| 0 <= n < |first| && HidesByte(sql, first[n], k) {
      assert all[n] == first[n];
    }
    if n :| 0 <= n < |rest| && HidesByte(sql, rest[n], k) {
      assert all[|first| + n] == rest[n];
    }
  }

  lemma StretchesThen(sql: string, i: nat, first: seq<Lexeme>, e: nat, rest: Lexing)
    requires first != [] && first[|first| - 1].end == e
    ensures Stretches(sql, i, Then(first, rest)) == first + Stretches(sql, e, rest)
  {
    LeftThen(i, first, e, rest);
  }

  lemma StartsLater(first: seq<Lexeme>, rest: seq<Lexeme>, i: nat, e: nat)
    requires i <= e && AreWithin(first, i, e) && forall n :: 0 <= n < |rest| ==> e <= rest[n].start
    ensures forall n :: 0 <= n < |first + rest| ==> i <= (first + rest)[n].start
  {
    var all := first + rest;
    assert forall n :: 0 <= n < |all| ==> all[n] == if n < |first| then first[n] else rest[n - |first|];
  }

  /** Before `e` no tag begins in the open. */
  ghost predicate NoTag(sql: string, first: seq<Lexeme>, i: nat, e: nat) {
    forall j: nat, k: nat :: i <= j < e && TagReaches(sql, j, k) ==> IsHidden(sql, first, j)
  }

  lemma TagLater(sql: string, i: nat, first: seq<Lexeme>, e: nat, rest: seq<Lexeme>, k: nat)
    requires AreWithin(first, i, e) && (forall n :: 0 <= n < |rest| ==> e <= rest[n].start)
    requires i <= e && NoTag(sql, first, i, e)
    ensures IsInTag(sql, first + rest, i, k) <==> IsInTag(sql, rest, e, k)
  {
    hide IsHidden, TagReaches;
    forall j: nat
      ensures IsHidden(sql, first + rest, j) <==> if j < e then IsHidden(sql, first, j) else IsHidden(sql, rest, j)
    {
      HiddenThen(sql, first, i, e, rest, j);
    }
  }

  /** In the first stretch the scan stands at all spaces in the open. */
  ghost predicate AllStand(sql: string, first: seq<Lexeme>, i: nat, e: nat) {
    forall k: nat :: i <= k < e && SpaceAt(sql, k) && !IsHidden(sql, first, k) ==> Stands(Regular, sql, i, k)
  }

  lemma GroundThen(sql: string, i: nat, first: seq<Lexeme>, e: nat, rest: seq<Lexeme>)
    requires AreWithin(first, i, e) && NoTag(sql, first, i, e) && AllStand(sql, first, i, e) && Comes(sql, i, e)
    requires Ground(sql, e, rest)
    ensures Ground(sql, i, first + rest)
  {
    hide Stands, Comes, IsHidden, IsInTag, TagReaches, SpaceAt;
    ComesForward(sql, i, e);
    StartsLater(first, rest, i, e);
    forall k: nat | i <= k && SpaceAt(sql, k) && !IsHidden(sql, first + rest, k)
      ensures Stands(Regular, sql, i, k) <==> !IsInTag(sql, first + rest, i, k)
    {
      HiddenThen(sql, first, i, e, rest, k);
      TagLater(sql, i, first, e, rest, k);
      if k < e {
        NoTagYet(sql, rest, e, k);
      } else {
        ComesStands(sql, i, e, k);
      }
    }
  }

  lemma ComesForward(sql: string, i: nat, e: nat)
    requires Comes(sql, i, e)
    ensures i <= e <= |sql|
  {
  }

  lemma NoTagYet(sql: string, rest: seq<Lexeme>, e: nat, k: nat)
    ensures k < e ==> !IsInTag(sql, rest, e, k)
  {
  }

  /** A stretch of plain bytes. */
  lemma PlainStretch(sql: string, first: seq<Lexeme>, i: nat, e: nat)
    requires PlainRun(sql, i, e)
    ensures NoTag(sql, first, i, e) && AllStand(sql, first, i, e) && Comes(sql, i, e)
  {
    hide Stands, Comes, IsHidden, SpaceLength;
    PlainComes(sql, i, e);
    forall j: nat, k: nat | i <= j < e
      ensures !TagReaches(sql, j, k)
    {
      assert !LeavesRegular(sql, j);
    }
    forall k: nat | i <= k < e && SpaceAt(sql, k)
      ensures Stands(Regular, sql, i, k)
    {
      SpaceIsNotAscii(sql, k);
      PlainRunIsPassed(sql, i, k, k);
      StandsAtOnce(sql, k);
    }
  }

  /** A stretch that is hidden as a whole. */
  lemma HiddenStretch(sql: string, l: Lexeme, i: nat, e: nat)
    requires l.start == i && l.end == e && Hides(sql, l)
    ensures NoTag(sql, [l], i, e) && AllStand(sql, [l], i, e) && AreWithin([l], i, e)
  {
    hide Hides, Stands, TagReaches, SpaceAt;
    forall k: nat | i <= k < e
      ensures IsHidden(sql, [l], k)
    {
      assert HidesByte(sql, [l][0], k);
    }
  }

  // ---------------------------------------------------------------- the end of the text

  lemma NoGround(sql: string, i: nat)
    requires |sql| <= i + 2
    ensures forall k: nat :: i <= k ==> !SpaceAt(sql, k)
  {
  }

  lemma GroundOfNone(sql: string, i: nat)
    requires i <= |sql| <= i
    ensures Ground(sql, i, [])
  {
    hide SpaceLength;
  }

  lemma LeftOf(sql: string, i: nat, state: TokenizeState, lastPos: nat)
    requires lastPos <= i
    ensures Stretches(sql, i, Lexing([], state, lastPos)) == Left(sql, i, state)
  {
  }

  /** The rest of the text is one stretch. */
  lemma LastStretch(sql: string, i: nat, l: Lexeme)
    requires i < |sql| && l.start == i && l.end == |sql| && (Hides(sql, l) || PlainRun(sql, i, |sql|))
    ensures Ground(sql, i, [l])
  {
    hide Hides, PlainRun, Comes, NoTag, AllStand, Ground, IsHidden;
    if PlainRun(sql, i, |sql|) {
      PlainStretch(sql, [l], i, |sql|);
    } else {
      HiddenStretch(sql, l, i, |sql|);
      ComesToEnd(sql, i);
    }
    GroundOfNone(sql, |sql|);
    GroundThen(sql, i, [l], |sql|, []);
    assert [l] + [] == [l];
  }

  lemma ComesToEnd(sql: string, i: nat)
    requires i <= |sql|
    ensures Comes(sql, i, |sql|)
  {
  }

  // ---------------------------------------------------------------- the tokenizer, lexeme by lexeme

  ghost predicate GroundOf(sql: string, i: nat, lexing: Lexing) { Ground(sql, i, Stretches(sql, i, lexing)) }

  /** One lexeme, or several of one operator, and the rest. */
  lemma {:induction false} Onwards(sql: string, i: nat, first: seq<Lexeme>, e: nat)
    requires IsBytes(sql) && first != [] && first[|first| - 1].end == e && i < e <= |sql| && AreWithin(first, i, e)
    requires NoTag(sql, first, i, e) && AllStand(sql, first, i, e) && Comes(sql, i, e)
    requires AllSafe(sql, Then(first, Lex(sql, e, e)).lexemes)
    ensures GroundOf(sql, i, Then(first, Lex(sql, e, e)))
    decreases |sql| - i, 0
  {
    hide Lex, NoTag, AllStand, Comes, AllSafe, Ground, Stretches, AreWithin;
    SafeRest(sql, first, Lex(sql, e, e));
    LexGround(sql, e, e);
    StretchesThen(sql, i, first, e, Lex(sql, e, e));
    GroundThen(sql, i, first, e, Stretches(sql, e, Lex(sql, e, e)));
  }

  lemma {:induction false} PlainOnwards(sql: string, i: nat, lexeme: Lexeme, e: nat)
    requires IsBytes(sql) && lexeme.start == i && lexeme.end == e && i < e <= |sql| && PlainRun(sql, i, e)
    requires AllSafe(sql, Then([lexeme], Lex(sql, e, e)).lexemes)
    ensures GroundOf(sql, i, Then([lexeme], Lex(sql, e, e)))
    decreases |sql| - i, 1
  {
    hide Lex, NoTag, AllStand, Comes, AllSafe, PlainRun, GroundOf;
    PlainStretch(sql, [lexeme], i, e);
    Onwards(sql, i, [lexeme], e);
  }

  lemma {:induction false} HiddenOnwards(sql: string, lexeme: Lexeme)
    requires IsBytes(sql) && lexeme.start < lexeme.end <= |sql| && Hides(sql, lexeme) && Comes(sql, lexeme.start, lexeme.end)
    requires AllSafe(sql, Then([lexeme], Lex(sql, lexeme.end, lexeme.end)).lexemes)
    ensures GroundOf(sql, lexeme.start, Then([lexeme], Lex(sql, lexeme.end, lexeme.end)))
    decreases |sql| - lexeme.start, 1
  {
    hide Lex, NoTag, AllStand, Comes, AllSafe, Hides, GroundOf;
    HiddenStretch(sql, lexeme, lexeme.start, lexeme.end);
    Onwards(sql, lexeme.start, [lexeme], lexeme.end);
  }

  /** The rest of the text is an open word, quote or dollar quote. */
  lemma LastWordGround(sql: string, i: nat, state: TokenizeState)
    requires i < |sql| && state != SingleLineComment && state != MultiLineComment
    requires PlainRun(sql, i, |sql|) || IsLiteralAt(sql, WordOf(sql, i, |sql|))
    ensures GroundOf(sql, i, Lexing([], state, i))
  {
    hide PlainRun, IsLiteralAt, Ground;
    LeftOf(sql, i, state, i);
    LastStretch(sql, i, WordOf(sql, i, |sql|));
  }

  lemma LastCommentGround(sql: string, i: nat, state: TokenizeState, lastPos: nat)
    requires i + 1 < |sql| && lastPos <= i && (state == SingleLineComment || state == MultiLineComment)
    requires if state == SingleLineComment then sql[i] == sql[i + 1] == '-' else sql[i] == '/'
    ensures GroundOf(sql, i, Lexing([], state, lastPos))
  {
    hide Ground;
    var l := Lexeme.Comment(i, |sql|);
    LeftOf(sql, i, state, lastPos);
    if !Hides(sql, l) {
      CommentIsPlain(sql, l);
    }
    LastStretch(sql, i, l);
  }

  lemma CommentIsPlain(sql: string, l: Lexeme)
    requires l.Comment? && l.start < l.end <= |sql| && !Hides(sql, l) && (l.end == |sql| || sql[l.end - 1] < '\U{80}')
    ensures PlainRun(sql, l.start, l.end)
  {
    hide LeavesRegular;
  }

  lemma {:induction false} QuoteGround(sql: string, i: nat, open: nat, state: TokenizeState)
    requires IsBytes(sql) && i <= open < |sql| && (state == StringLiteral || state == QuotedIdentifier)
    requires (open == i && (sql[i] == '"' || sql[i] == '\'')) || (open == i + 1 && IsStringPrefix(sql[i]) && sql[open] == '\'')
    requires AllSafe(sql, AfterQuote(sql, i, state, CloseQuote(sql, open + 1, sql[open])).lexemes)
    ensures GroundOf(sql, i, AfterQuote(sql, i, state, CloseQuote(sql, open + 1, sql[open])))
    decreases |sql| - i, 2
  {
    hide Lex, CloseQuote, AllSafe, Comes, GroundOf;
    var close := CloseQuote(sql, open + 1, sql[open]);
    if close.Some? {
      if open == i {
        QuoteComes(sql, i, close.value);
      } else {
        PrefixComes(sql, i, close.value);
      }
      HiddenOnwards(sql, WordOf(sql, i, close.value));
    } else {
      LastWordGround(sql, i, state);
    }
  }

  /** A comment begins at `i`, and closes there if at all. */
  predicate CommentAt(sql: string, i: nat, state: TokenizeState, close: Option<nat>)
    requires i + 1 < |sql|
  {
    || (state == SingleLineComment && sql[i] == sql[i + 1] == '-' && close == LineEnd(sql, i + 2))
    || (state == MultiLineComment && sql[i] == '/' && sql[i + 1] == '*' && close == BlockEnd(sql, i + 2))
  }

  lemma {:induction false} CommentGround(sql: string, i: nat, state: TokenizeState, lastPos: nat, close: Option<nat>)
    requires IsBytes(sql) && i + 1 < |sql| && lastPos <= i
    requires CommentAt(sql, i, state, close)
    requires AllSafe(sql, AfterComment(sql, i, state, lastPos, close).lexemes)
    ensures GroundOf(sql, i, AfterComment(sql, i, state, lastPos, close))
    decreases |sql| - i, 2
  {
    hide Lex, LineEnd, BlockEnd, Comes, GroundOf, IsSafe, Ground, PlainRun, ModeBehind, IsDollarQuoted;
    if close.Some? {
      var l := Lexeme.Comment(i, close.value);
      if Hides(sql, l) {
        SafeRest(sql, [l], Lex(sql, close.value, close.value));
        assert IsSafe(sql, [l][0]);
        CommentComes(sql, i, state, close);
        HiddenOnwards(sql, l);
      } else {
        CommentEnds(sql, i, state, close);
        CommentIsPlain(sql, l);
        PlainOnwards(sql, i, l, close.value);
      }
    } else {
      LastCommentGround(sql, i, state, lastPos);
    }
  }

  lemma CommentComes(sql: string, i: nat, state: TokenizeState, close: Option<nat>)
    requires i + 1 < |sql| && close.Some? && i < close.value <= |sql| && IsSafe(sql, Lexeme.Comment(i, close.value))
    requires CommentAt(sql, i, state, close)
    ensures Comes(sql, i, close.value)
  {
    hide LineEnd, BlockEnd, Comes, ModeBehind, IsDollarQuoted;
    if state == SingleLineComment {
      LineCommentComes(sql, i, close.value);
    } else {
      BlockCommentComes(sql, i, close.value);
    }
  }

  lemma CommentEnds(sql: string, i: nat, state: TokenizeState, close: Option<nat>)
    requires i + 1 < |sql| && close.Some?
    requires CommentAt(sql, i, state, close)
    ensures i < close.value <= |sql| && sql[close.value - 1] < '\U{80}'
  {
    hide LineEnd, BlockEnd;
    if state == SingleLineComment {
      LineEndIsFirst(sql, i + 2);
    } else {
      BlockEndIsFirst(sql, i + 2);
    }
  }

  // ---------------------------------------------------------------- dollar signs

  /** Where the bytes of a tag from `j` on end. */
  function TagStop(sql: string, j: nat): (x: nat)
    requires j <= |sql|
    ensures j <= x <= |sql| && (forall k :: j <= k < x ==> IsTagByte(sql[k])) && (x < |sql| ==> !IsTagByte(sql[x]))
    decreases |sql| - j
  {
    if j < |sql| && IsTagByte(sql[j]) then TagStop(sql, j + 1) else j
  }

  lemma {:induction false} TagIsLeft(sql: string, j: nat, tag: string, p: nat)
    requires IsBytes(sql) && j <= |sql| && TagEnd(sql, j) == None && TagStop(sql, j) <= p && Stands(Regular, sql, TagStop(sql, j), p)
    ensures Stands(Tag(tag), sql, j, p)
    decreases |sql| - j
  {
    hide Stands;
    StandsBounds(sql, TagStop(sql, j), p);
    StandsStep(Tag(tag), sql, j, p);
    assert sql[j..][0] == sql[j];
    if IsTagByte(sql[j]) {
      TagIsLeft(sql, j + 1, tag + sql[j..][..1], p);
    }
  }

  lemma StandsBounds(sql: string, i: nat, p: nat)
    requires Stands(Regular, sql, i, p)
    ensures p + 2 < |sql|
  {
  }

  /** Behind a lone dollar sign and bytes of a tag the scan is back where it would be without the sign. */
  lemma TagStands(sql: string, i: nat, k: nat)
    requires IsBytes(sql) && i + 1 < |sql| && sql[i] == '$' && IsFirstTagByte(sql[i + 1]) && TagEnd(sql, i + 1) == None
    requires i < k && SpaceAt(sql, k)
    ensures Stands(Regular, sql, i, k) <==> TagStop(sql, i + 1) <= k && Stands(Regular, sql, i + 1, k)
    ensures TagReaches(sql, i, k) <==> k < TagStop(sql, i + 1)
  {
    hide Stands, TagEnd, SpaceLength, PlainRun;
    var x := TagStop(sql, i + 1);
    SpaceIsNotAscii(sql, k);
    StandsStep(Regular, sql, i, k);
    OpensTag(sql, i);
    if Stands(Tag([]), sql, i + 1, k) {
      var y := TagIsPassed(sql, i + 1, [], k);
      StandsBehind(Regular, sql, y, k);
      assert y == x;
      TagIsPlain(sql, i + 1, x);
      PlainRunIsPassed(sql, i + 1, x, k);
    }
    if x <= k && Stands(Regular, sql, i + 1, k) {
      TagIsPlain(sql, i + 1, x);
      PlainRunIsPassed(sql, i + 1, x, k);
      TagIsLeft(sql, i + 1, [], k);
    }
  }

  lemma LoneTag(sql: string, i: nat, rest: seq<Lexeme>)
    requires IsBytes(sql) && i + 1 < |sql| && sql[i] == '$' && IsFirstTagByte(sql[i + 1]) && TagEnd(sql, i + 1) == None
    requires Ground(sql, i + 1, rest)
    ensures Ground(sql, i, [WordOf(sql, i, i + 1)] + rest)
  {
    hide Stands, TagEnd, SpaceAt, TagReaches, IsHidden;
    var first := [WordOf(sql, i, i + 1)];
    StartsLater(first, rest, i, i + 1);
    NotHidden(sql, i);
    forall k: nat | i <= k && SpaceAt(sql, k) && !IsHidden(sql, first + rest, k)
      ensures Stands(Regular, sql, i, k) <==> !IsInTag(sql, first + rest, i, k)
    {
      SpaceIsNoDollar(sql, k);
      TagStands(sql, i, k);
      forall j: nat
        ensures IsHidden(sql, first + rest, j) <==> if j < i + 1 then IsHidden(sql, first, j) else IsHidden(sql, rest, j)
      {
        HiddenThen(sql, first, i, i + 1, rest, j);
      }
    }
  }

  lemma NotHidden(sql: string, i: nat)
    requires i < |sql| && sql[i] == '$'
    ensures !IsHidden(sql, [WordOf(sql, i, i + 1)], i)
  {
  }

  lemma SpaceIsNoDollar(sql: string, k: nat)
    requires SpaceAt(sql, k)
    ensures sql[k] >= '\U{80}'
  {
    SpaceIsNotAscii(sql, k);
  }

  lemma {:induction false} LoneDollarGround(sql: string, i: nat)
    requires IsBytes(sql) && i + 1 < |sql| && sql[i] == '$' && (IsDigit(sql[i + 1]) || TagEnd(sql, i + 1) == None)
    requires AllSafe(sql, Then([WordOf(sql, i, i + 1)], Lex(sql, i + 1, i)).lexemes)
    ensures GroundOf(sql, i, Then([WordOf(sql, i, i + 1)], Lex(sql, i + 1, i)))
    decreases |sql| - i, 0
  {
    hide Lex, TagEnd, AllSafe, Ground, NoTag, AllStand, Comes, PlainRun, Stretches;
    var first, rest := [WordOf(sql, i, i + 1)], Lex(sql, i + 1, i);
    if !IsDigit(sql[i + 1]) {
      NoTagNoDollar(sql, i + 1);
    }
    SafeRest(sql, first, rest);
    LexGround(sql, i + 1, i);
    StretchesThen(sql, i, first, i + 1, rest);
    if IsDigit(sql[i + 1]) || !IsFirstTagByte(sql[i + 1]) {
      LonePlain(sql, i);
      PlainStretch(sql, first, i, i + 1);
      GroundThen(sql, i, first, i + 1, Stretches(sql, i + 1, rest));
    } else {
      LoneTag(sql, i, Stretches(sql, i + 1, rest));
    }
  }

  lemma {:induction false} DollarGround(sql: string, i: nat)
    requires IsBytes(sql) && i < |sql| && sql[i] == '$' && AllSafe(sql, LexDollar(sql, i, i).lexemes)
    ensures GroundOf(sql, i, LexDollar(sql, i, i))
    decreases |sql| - i, 3
  {
    hide Lex, TagEnd, MarkerClose, MarkerOf, DollarWord, AllSafe, GroundOf, Comes;
    if i + 1 == |sql| {
      LastDollarGround(sql, i);
    } else if IsDigit(sql[i + 1]) || TagEnd(sql, i + 1) == None {
      LoneDollarGround(sql, i);
    } else {
      var m := MarkerOf(sql, i + 1);
      var close := MarkerClose(sql, i + |m| + 2, m);
      if close.Some? {
        DollarQuoteGround(sql, i, m, close.value);
      } else {
        LastWordGround(sql, i, DollarQuotedString);
      }
    }
  }

  lemma LastDollarGround(sql: string, i: nat)
    requires i + 1 == |sql| && sql[i] == '$'
    ensures GroundOf(sql, i, Lexing([], Standard, i))
  {
    LastWordGround(sql, i, Standard);
  }

  lemma {:induction false} DollarQuoteGround(sql: string, i: nat, m: string, close: nat)
    requires IsBytes(sql) && i + 1 < |sql| && sql[i] == '$' && !IsDigit(sql[i + 1]) && TagEnd(sql, i + 1).Some?
    requires m == MarkerOf(sql, i + 1) && MarkerClose(sql, i + |m| + 2, m) == Some(close)
    requires i + |m| + 2 <= close && close + |m| + 2 <= |sql|
    requires AllSafe(sql, AfterDollar(sql, i, m, Some(close)).lexemes)
    ensures GroundOf(sql, i, AfterDollar(sql, i, m, Some(close)))
    decreases |sql| - i, 2
  {
    hide Lex, TagEnd, MarkerClose, MarkerOf, Requoted, Comes, FirstMarker, MarkerAt, NoDollar, IsClear, IsDollarQuoted, IsTag,
         GroundOf;
    var lexeme, e := DollarWord(sql, i, m, close), close + |m| + 2;
    OpeningMarker(sql, i);
    MarkerIsTag(sql, i + 1);
    MarkerCloseIsFirst(sql, i + |m| + 2, m);
    DollarWordIsQuoted(sql, i, m, close);
    SafeRest(sql, [lexeme], Lex(sql, e, e));
    assert IsSafe(sql, [lexeme][0]);
    DollarComes(sql, i, m, close);
    HiddenOnwards(sql, lexeme);
  }

  // ---------------------------------------------------------------- words

  lemma {:induction false} OperatorGround(sql: string, i: nat, end: nat)
    requires IsBytes(sql) && i < |sql| && IsPunctuation(sql[i]) && sql[i] !in {'"', '\'', '$', '-'} && end == OperatorEnd(sql, i + 1)
    requires AllSafe(sql, AfterOperator(sql, i, end).lexemes)
    ensures GroundOf(sql, i, AfterOperator(sql, i, end))
    decreases |sql| - i, 1
  {
    hide Lex, OperatorEnd, OperatorLexemes, AllSafe, GroundOf, PlainRun, NoTag, AllStand, Comes, Tiles;
    OperatorRuns(sql, i);
    if end < |sql| {
      var first := OperatorLexemes(sql, i, end);
      OperatorTiles(sql, i, end);
      TilesMeaning(sql, first, i, end);
      PlainStretch(sql, first, i, end);
      Onwards(sql, i, first, end);
    } else {
      LastWordGround(sql, i, Operator);
    }
  }

  lemma LastWordRuns(sql: string, i: nat)
    requires i < |sql| && IsInitialNumber(sql[i]) && NumberEnd(sql, i + 1) == |sql|
    ensures PlainRun(sql, i, |sql|)
  {
    hide LeavesRegular, NumberContinues, NumberEnd;
    NumberEndChars(sql, i + 1);
    forall k | i <= k < |sql|
      ensures !LeavesRegular(sql, k)
    {
      OpenNumberByte(sql, k, k > i);
    }
  }

  lemma OpenNumberByte(sql: string, k: nat, inside: bool)
    requires k < |sql| && (if inside then k > 0 && NumberContinues(sql, k) else IsInitialNumber(sql[k]))
    requires k + 1 < |sql| ==> NumberContinues(sql, k + 1)
    ensures !LeavesRegular(sql, k)
  {
  }

  lemma {:induction false} WordsGround(sql: string, i: nat, lastPos: nat)
    requires IsBytes(sql) && i < |sql| && AllSafe(sql, Lex(sql, i, lastPos).lexemes) && BeginsWord(sql, i) && lastPos <= i
    ensures GroundOf(sql, i, Lex(sql, i, lastPos))
    decreases |sql| - i, 3
  {
    hide WordEnd, OperatorEnd, NumberEnd, CloseQuote, AllSafe, OperatorLexemes, PlainRun, LeavesRegular, GroundOf;
    var end := i + SpecialOperatorLength(sql, i);
    if end > i {
      SpecialRuns(sql, i, lastPos);
      PlainOnwards(sql, i, Word(Token(sql[i..end], lastPos), i, end), end);
    } else if IsSingleByteOperator(sql[i]) {
      SingleRuns(sql, i);
      PlainOnwards(sql, i, Word(Token([sql[i]], lastPos), i, i + 1), i + 1);
    } else if IsInitialNumber(sql[i]) {
      var stop := NumberEnd(sql, i + 1);
      if stop < |sql| {
        var e := Backtrack(sql, i, stop);
        NumberRuns(sql, i, e);
        PlainOnwards(sql, i, WordOf(sql, i, e), e);
      } else {
        LastWordRuns(sql, i);
        LastWordGround(sql, i, Numeric);
      }
    } else if IsStringPrefix(sql[i]) && i + 1 < |sql| && sql[i + 1] == '\'' {
      QuoteGround(sql, i, i + 1, StringLiteral);
    } else if IsPunctuation(sql[i]) {
      OperatorGround(sql, i, OperatorEnd(sql, i + 1));
    } else {
      WordRuns(sql, i);
      var e := WordEnd(sql, i + 1);
      if e < |sql| {
        PlainOnwards(sql, i, WordOf(sql, i, e), e);
      } else {
        LastWordGround(sql, i, Keyword);
      }
    }
  }

  lemma {:induction false} SpaceGround(sql: string, i: nat)
    requires IsBytes(sql) && i < |sql| && IsSpace(sql[i]) && AllSafe(sql, Lex(sql, i + 1, i + 1).lexemes)
    ensures GroundOf(sql, i, Lex(sql, i + 1, i + 1))
    decreases |sql| - i, 0
  {
    hide Lex, AllSafe, PlainRun, NoTag, AllStand, Comes, Ground;
    var rest := Lex(sql, i + 1, i + 1);
    OneByteRuns(sql, i);
    PlainStretch(sql, [], i, i + 1);
    LexGround(sql, i + 1, i + 1);
    NothingBehind(sql, i + 1, i + 1);
    GroundThen(sql, i, [], i + 1, Stretches(sql, i + 1, rest));
    assert [] + Stretches(sql, i + 1, rest) == Stretches(sql, i + 1, rest) == Stretches(sql, i, rest);
  }

  lemma {:induction false} LexGround(sql: string, i: nat, lastPos: nat)
    requires IsBytes(sql) && WordStart(sql, i, lastPos) && AllSafe(sql, Lex(sql, i, lastPos).lexemes)
    ensures GroundOf(sql, i, Lex(sql, i, lastPos))
    decreases |sql| - i, 4
  {
    hide CloseQuote, LineEnd, BlockEnd, LexDollar, AfterNumber, AfterOperator, AfterWord, AfterQuote, AfterComment,
         AllSafe, PlainRun, Ground;
    if i == |sql| {
      LeftOf(sql, i, Standard, i);
      GroundOfNone(sql, i);
    } else {
      var c, next := sql[i], if i + 1 < |sql| then sql[i + 1] else ' ';
      if c == '\'' {
        QuoteGround(sql, i, i, StringLiteral);
      } else if c == '"' {
        QuoteGround(sql, i, i, QuotedIdentifier);
      } else if c == ';' {
        OneByteRuns(sql, i);
        PlainOnwards(sql, i, StatementEnd(i, i + 1), i + 1);
      } else if c == '$' {
        DollarGround(sql, i);
      } else if c == '-' && next == '-' {
        CommentGround(sql, i, SingleLineComment, lastPos, LineEnd(sql, i + 2));
      } else if c == '/' && next == '*' {
        CommentGround(sql, i, MultiLineComment, lastPos, BlockEnd(sql, i + 2));
      } else if IsSpace(c) {
        SpaceGround(sql, i);
      } else {
        WordsGround(sql, i, lastPos);
      }
    }
  }

  // ---------------------------------------------------------------- the theorem

  ghost predicate IsReplaced(sql: string, k: nat) { exists u :: u in Found(Regular, sql, 0) && u.pos == k }

  lemma ReplacedWhereItStands(sql: string, k: nat)
    requires SpaceAt(sql, k)
    ensures IsReplaced(sql, k) <==> Stands(Regular, sql, 0, k)
  {
    hide Found, Passes, SpaceLength;
    assert sql[0..] == sql;
    FoundExactly(Regular, sql, 0, UnicodeSpace(k, SpaceLength(sql[k..])));
    forall u: UnicodeSpace | u.pos == k
      ensures u in Found(Regular, sql, 0) <==> IsFound(Regular, sql, 0, u)
    {
      FoundExactly(Regular, sql, 0, u);
    }
  }

  lemma LastBytesStay(sql: string, k: nat)
    requires |sql| <= k + 2
    ensures !IsReplaced(sql, k)
  {
    hide Found, Passes, SpaceLength;
    forall u: UnicodeSpace | u.pos == k
      ensures u !in Found(Regular, sql, 0)
    {
      FoundExactly(Regular, sql, 0, u);
    }
  }

  /** When the scan comes out of every block comment in mode Regular and leaves every dollar quote at its end, a
      Unicode space that no literal and no comment hides is replaced if and only if more than two bytes are left, and
      it is not behind a dollar sign and bytes of a tag, of which its own bytes are some. */
  lemma SpaceIsReplacedExactly(sql: string, k: nat)
    requires IsBytes(sql) && AllSafe(sql, Lex(sql, 0, 0).lexemes)
    requires k <= |sql| && BeginsSpace(sql[k..]) && !IsHidden(sql, Stretches(sql, 0, Lex(sql, 0, 0)), k)
    ensures IsReplaced(sql, k) <==> |sql| - k > 2 && !IsInTag(sql, Stretches(sql, 0, Lex(sql, 0, 0)), 0, k)
  {
    hide Lex, Stretches, AllSafe, IsHidden, IsInTag, Stands, IsReplaced, SpaceLength;
    if |sql| - k > 2 {
      LexGround(sql, 0, 0);
      ReplacedWhereItStands(sql, k);
    } else {
      LastBytesStay(sql, k);
    }
  }

  // ---------------------------------------------------------------- examples

  /** For example, a space behind a named parameter stays: its bytes are taken for a tag. */
  lemma ParameterKeepsSpace()
    ensures var sql := "$a\U{C2}\U{A0}b c";
            && IsBytes(sql) && AllSafe(sql, Lex(sql, 0, 0).lexemes) && BeginsSpace(sql[2..])
            && !IsHidden(sql, Stretches(sql, 0, Lex(sql, 0, 0)), 2) && IsInTag(sql, Stretches(sql, 0, Lex(sql, 0, 0)), 0, 2)
            && Clean(Regular, sql) == sql
  {
    hide Lex, Clean, Found;
    var sql := "$a\U{C2}\U{A0}b c";
    ParameterLexed(sql);
    var all := Stretches(sql, 0, Lex(sql, 0, 0));
    assert all == [WordOf(sql, 0, 1), WordOf(sql, 1, 5), WordOf(sql, 6, 7)];
    assert sql[0] == '$' && sql[1] == 'a' && sql[6] == 'c';
    assert forall n :: 0 <= n < |all| ==> !IsLiteralAt(sql, all[n]) && !Hides(sql, all[n]);
    assert TagReaches(sql, 0, 2);
    assert !IsHidden(sql, all, 0);
    ParameterIsSafe(sql);
    ParameterStays(sql);
  }

  lemma ParameterLexed(sql: string)
    requires sql == "$a\U{C2}\U{A0}b c"
    ensures Lex(sql, 0, 0) == Lexing([WordOf(sql, 0, 1), WordOf(sql, 1, 5)], Keyword, 6)
  {
    assert TagEnd(sql, 5) == None;
    assert TagEnd(sql, 4) == None;
    assert TagEnd(sql, 3) == None;
    assert TagEnd(sql, 2) == None;
    assert TagEnd(sql, 1) == None;
    assert WordEnd(sql, 5) == 5;
    assert WordEnd(sql, 4) == 5;
    assert WordEnd(sql, 3) == 5;
    assert WordEnd(sql, 2) == 5;
    assert WordEnd(sql, 7) == 7;
    assert Lex(sql, 6, 6) == Lexing([], Keyword, 6);
    assert Lex(sql, 5, 5) == Lex(sql, 6, 6);
    assert Lex(sql, 1, 0) == Then([WordOf(sql, 1, 5)], Lex(sql, 5, 5));
    assert Lex(sql, 0, 0) == Then([WordOf(sql, 0, 1)], Lex(sql, 1, 0));
  }

  lemma ParameterIsSafe(sql: string)
    requires sql == "$a\U{C2}\U{A0}b c"
    ensures AllSafe(sql, [WordOf(sql, 0, 1), WordOf(sql, 1, 5)])
  {
    assert sql[1] == 'a';
  }

  lemma ParameterStays(sql: string)
    requires sql == "$a\U{C2}\U{A0}b c"
    ensures Clean(Regular, sql) == sql
  {
    var s5, s4, s3, s2, s1 := sql[5..], sql[4..], sql[3..], sql[2..], sql[1..];
    assert s4[1..] == s5 && s3[1..] == s4 && s2[1..] == s3 && s1[1..] == s2;
    ShortRestIsCopied(Tag("a\U{C2}\U{A0}b"), s5);
    assert "a\U{C2}\U{A0}" + s4[..1] == "a\U{C2}\U{A0}b" && s4[..1] + s5 == s4;
    assert Clean(Tag("a\U{C2}\U{A0}"), s4) == s4;
    assert "a\U{C2}" + s3[..1] == "a\U{C2}\U{A0}" && s3[..1] + s4 == s3;
    assert Clean(Tag("a\U{C2}"), s3) == s3;
    assert "a" + s2[..1] == "a\U{C2}" && s2[..1] + s3 == s2;
    assert Clean(Tag("a"), s2) == s2;
    assert "" + s1[..1] == "a" && s1[..1] + s2 == s1;
    assert Clean(Tag(""), s1) == s1;
    Plain(sql);
    assert sql[..1] + s1 == sql;
  }

  // ---------------------------------------------------------------- a literal right behind a comment

  /** In a quote, a dollar quote or a comment the scan does not come to the next byte in mode Regular. */
  lemma StaysInside(mode: Mode, sql: string, i: nat)
    requires i + 2 < |sql| && (mode.Quoted? || mode.DollarQuoted? || mode.Comment?)
    requires sql[i] != '$' && !IsNewline(sql[i]) && (mode.Quoted? ==> sql[i] != mode.quote)
    ensures Next(mode, sql[i..]) == Go(mode, 1) && !Stands(mode, sql, i, i)
  {
    assert sql[i..][0] == sql[i];
    StandsStep(mode, sql, i, i);
    if Stands(mode, sql, i + 1, i) {
      StandsBehind(mode, sql, i + 1, i);
    }
  }

  lemma FirstSpaceStands(m: Mode, sql: string, e: nat)
    requires e < |sql| && (sql[e] == '"' || sql[e] == '\'') && SpaceAt(sql, e + 1)
    requires IsMode(m) && !m.Tag?
    ensures Stands(m, sql, e, e + 1) <==> m == Quoted(sql[e])
  {
    hide Stands, SpaceLength;
    SpaceIsNotAscii(sql, e + 1);
    StandsStep(m, sql, e, e + 1);
    assert sql[e..][0] == sql[e] && sql[e..][1] == sql[e + 1];
    if m == Quoted(sql[e]) {
      StandsAtOnce(sql, e + 1);
    } else {
      var inside := if m.Regular? then Quoted(sql[e]) else m;
      Plain(sql[e..]);
      if m != Regular {
        StaysInside(m, sql, e);
      }
      StaysInside(inside, sql, e + 1);
    }
  }

  /** Where the scan begins a block comment in mode Regular, a Unicode space at the very beginning of a literal right
      behind it is replaced if and only if the scan comes out of the comment inside quotes of the literal's own kind. */
  lemma LiteralBehindComment(sql: string, start: nat, e: nat)
    requires start < e < |sql| && Stands(Regular, sql, 0, start) && EndsComment(sql[start..e])
    requires (sql[e] == '"' || sql[e] == '\'') && SpaceAt(sql, e + 1)
    ensures IsReplaced(sql, e + 1) <==> ModeBehind(Regular, sql[start..e]) == Quoted(sql[e])
  {
    hide Passes, ModeBehind, SpaceLength, IsReplaced;
    var m := ModeBehind(Regular, sql[start..e]);
    OutInMode(Regular, sql[start..e]);
    ComesOut(Regular, sql[start..e], sql[e..]);
    assert sql[start..e] + sql[e..] == sql[start..] && sql[0..] == sql;
    PassesThrough(Regular, sql, Regular, |sql| - start, Regular, |sql| - e - 1);
    assert sql[|sql| - (|sql| - start)..] == sql[start..];
    PassesThrough(Regular, sql[start..], m, |sql| - e, Regular, |sql| - e - 1);
    assert sql[start..][|sql[start..]| - (|sql| - e)..] == sql[e..];
    FirstSpaceStands(m, sql, e);
    ReplacedWhereItStands(sql, e + 1);
  }
}
