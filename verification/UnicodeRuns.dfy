/**
 How the scan for Unicode spaces passes over the stretches that the tokenizer makes of a text: plain bytes, quotes,
 comments and dollar quotes.
 */
module UnicodeRuns {
  import opened Options
  import opened SqlCharacters
  import opened SqlLexer
  import opened SqlTokenizer
  import opened SqlCoverage
  import opened UnicodeSpaces
  import opened UnicodeMoves
  import opened UnicodeDollarQuotes
  import opened UnicodeComments

  // ---------------------------------------------------------------- where the scan stands

  /** From byte `i` the scan comes to byte `p` in mode Regular, with more than two bytes left. */
  ghost predicate Stands(mode: Mode, sql: string, i: nat, p: nat) {
    i <= |sql| && p + 2 < |sql| && Passes(mode, sql[i..], Regular, |sql| - p)
  }

  lemma StandsBehind(mode: Mode, sql: string, i: nat, p: nat)
    requires Stands(mode, sql, i, p)
    ensures i <= p
  {
    PassesNoMore(mode, sql[i..], Regular, |sql| - p);
  }

  lemma StandsStep(mode: Mode, sql: string, i: nat, p: nat)
    requires i <= |sql|
    ensures Next(mode, sql[i..]).GiveUp? ==> (Stands(mode, sql, i, p) <==> mode.Regular? && p == i && p + 2 < |sql|)
    ensures Next(mode, sql[i..]).Go? ==>
              (Stands(mode, sql, i, p) <==>
               (mode.Regular? && p == i && p + 2 < |sql|)
               || Stands(Next(mode, sql[i..]).next, sql, i + Next(mode, sql[i..]).bytes, p))
  {
    hide Next;
    if Next(mode, sql[i..]).Go? {
      assert sql[i..][Next(mode, sql[i..]).bytes..] == sql[i + Next(mode, sql[i..]).bytes..];
    }
  }

  /** Wherever behind `e` the scan stands when it begins at `i`, it stands when it begins at `e`. */
  ghost predicate Follows(sql: string, i: nat, e: nat) {
    i <= e && forall p :: e <= p && Stands(Regular, sql, i, p) ==> Stands(Regular, sql, e, p)
  }

  /** Before `e` the scan stands at plain bytes only. */
  ghost predicate Skips(sql: string, i: nat, e: nat) {
    i <= e <= |sql| && forall p: nat :: i <= p < e && Stands(Regular, sql, i, p) ==> sql[p] < '\U{80}'
  }

  // ---------------------------------------------------------------- plain bytes

  /** Here the scan leaves mode Regular. */
  predicate LeavesRegular(sql: string, k: nat)
    requires k < |sql|
  {
    || sql[k] == '"' || sql[k] == '\''
    || (k + 1 < |sql| && sql[k] == '$' && (sql[k + 1] == '$' || IsFirstTagByte(sql[k + 1])))
    || (k + 1 < |sql| && sql[k] == '-' && sql[k + 1] == '-')
  }

  /** A byte inside a character, or behind its first byte. */
  predicate IsContinuation(c: char) { '\U{80}' <= c <= '\U{BF}' }

  /** A stretch in which the scan stays in mode Regular, and which does not end inside a character. */
  ghost predicate PlainRun(sql: string, i: nat, e: nat) {
    && i <= e <= |sql| && (forall k :: i <= k < e ==> !LeavesRegular(sql, k))
    && (i < e < |sql| ==> sql[e - 1] < '\U{80}' || !IsContinuation(sql[e]))
  }

  lemma SpaceIsNotAscii(sql: string, i: nat)
    requires i + 2 < |sql| && SpaceLength(sql[i..]) > 0
    ensures forall k :: i <= k < i + SpaceLength(sql[i..]) ==> sql[k] >= '\U{80}'
    ensures !IsContinuation(sql[i]) && forall k :: i < k < i + SpaceLength(sql[i..]) ==> IsContinuation(sql[k])
  {
    assert sql[i..][0] == sql[i] && sql[i..][1] == sql[i + 1] && sql[i..][2] == sql[i + 2];
  }

  lemma PlainMove(sql: string, i: nat)
    requires i + 2 < |sql| && !LeavesRegular(sql, i)
    ensures Next(Regular, sql[i..]) == Go(Regular, if SpaceLength(sql[i..]) > 0 then SpaceLength(sql[i..]) else 1)
  {
    hide SpaceLength;
    assert sql[i..][0] == sql[i] && sql[i..][1] == sql[i + 1];
  }

  lemma {:induction false} PlainRunIsPassed(sql: string, i: nat, e: nat, p: nat)
    requires PlainRun(sql, i, e) && e <= p
    ensures Stands(Regular, sql, i, p) <==> Stands(Regular, sql, e, p)
    decreases e - i
  {
    hide LeavesRegular, SpaceLength, Stands, Next;
    if i < e && p + 2 < |sql| {
      PlainMove(sql, i);
      StandsStep(Regular, sql, i, p);
      var n := SpaceLength(sql[i..]);
      if n > 0 {
        SpaceIsNotAscii(sql, i);
        assert i + n <= e;
        PlainRunIsPassed(sql, i + n, e, p);
      } else {
        PlainRunIsPassed(sql, i + 1, e, p);
      }
    } else {
      NothingLeft(sql, i, p);
      NothingLeft(sql, e, p);
    }
  }

  lemma NothingLeft(sql: string, i: nat, p: nat)
    ensures p + 2 >= |sql| ==> !Stands(Regular, sql, i, p)
  {
  }

  lemma PlainFollows(sql: string, i: nat, e: nat)
    requires PlainRun(sql, i, e)
    ensures Follows(sql, i, e)
  {
    hide Stands, PlainRun;
    forall p | e <= p && Stands(Regular, sql, i, p)
      ensures Stands(Regular, sql, e, p)
    {
      PlainRunIsPassed(sql, i, e, p);
    }
    PlainIsForward(sql, i, e);
  }

  lemma PlainIsForward(sql: string, i: nat, e: nat)
    requires PlainRun(sql, i, e)
    ensures i <= e <= |sql|
  {
  }

  /** When the scan begins at `i` it comes to byte `e` in mode Regular, unless the text is over by then. */
  ghost predicate Comes(sql: string, i: nat, e: nat) {
    i <= e <= |sql| && (e + 2 < |sql| ==> Passes(Regular, sql[i..], Regular, |sql| - e))
  }

  /** Then it stands behind `e` exactly where it stands when it begins at `e`. */
  lemma ComesStands(sql: string, i: nat, e: nat, p: nat)
    requires Comes(sql, i, e) && e <= p
    ensures Stands(Regular, sql, i, p) <==> Stands(Regular, sql, e, p)
  {
    hide Passes;
    if p == e {
      StandsAtOnce(sql, e);
    } else if p + 2 < |sql| {
      PassesThrough(Regular, sql[i..], Regular, |sql| - e, Regular, |sql| - p);
      assert sql[i..][|sql[i..]| - (|sql| - e)..] == sql[e..];
    }
  }

  lemma StandsAtOnce(sql: string, e: nat)
    ensures e + 2 < |sql| ==> Stands(Regular, sql, e, e)
  {
  }

  lemma ComesFollows(sql: string, i: nat, e: nat)
    requires Comes(sql, i, e)
    ensures Follows(sql, i, e)
  {
    hide Stands;
    forall p | e <= p && Stands(Regular, sql, i, p)
      ensures Stands(Regular, sql, e, p)
    {
      ComesStands(sql, i, e, p);
    }
  }

  lemma PlainComes(sql: string, i: nat, e: nat)
    requires PlainRun(sql, i, e)
    ensures Comes(sql, i, e)
  {
    hide PlainRun;
    PlainIsForward(sql, i, e);
    PlainRunIsPassed(sql, i, e, e);
    StandsAtOnce(sql, e);
  }

  // ---------------------------------------------------------------- quotes

  lemma {:induction false} QuoteIsPassed(sql: string, j: nat, quote: char, end: nat, p: nat)
    requires j <= |sql| && CloseQuote(sql, j, quote) == Some(end) && Stands(Quoted(quote), sql, j, p)
    ensures end <= p && Stands(Regular, sql, end, p)
    decreases |sql| - j
  {
    hide Stands;
    StandsStep(Quoted(quote), sql, j, p);
    if |sql| - j > 1 {
      assert sql[j..][0] == sql[j] && sql[j..][1] == sql[j + 1];
      if sql[j] != quote {
        QuoteIsPassed(sql, j + 1, quote, end, p);
      } else if sql[j + 1] == quote {
        QuoteIsPassed(sql, j + 2, quote, end, p);
      } else {
        StandsBehind(Regular, sql, end, p);
      }
    }
  }

  /** A quote, from the byte it opens with. */
  lemma QuoteFollows(sql: string, i: nat, end: nat)
    requires i < |sql| && (sql[i] == '"' || sql[i] == '\'') && CloseQuote(sql, i + 1, sql[i]) == Some(end)
    ensures Follows(sql, i, end) && Skips(sql, i, end)
  {
    hide Stands, CloseQuote, SpaceLength;
    forall p | Stands(Regular, sql, i, p)
      ensures p == i || (end <= p && Stands(Regular, sql, end, p))
    {
      StandsStep(Regular, sql, i, p);
      if i + 2 < |sql| {
        assert sql[i..][0] == sql[i];
        Plain(sql[i..]);
        if Stands(Quoted(sql[i]), sql, i + 1, p) {
          QuoteIsPassed(sql, i + 1, sql[i], end, p);
        }
      }
    }
  }

  lemma PrefixFollows(sql: string, i: nat, end: nat)
    requires i + 1 < |sql| && IsStringPrefix(sql[i]) && sql[i + 1] == '\'' && CloseQuote(sql, i + 2, '\'') == Some(end)
    ensures Follows(sql, i, end) && Skips(sql, i, end)
  {
    hide Stands, CloseQuote, SpaceLength, Next;
    QuoteFollows(sql, i + 1, end);
    forall p | Stands(Regular, sql, i, p)
      ensures p == i || Stands(Regular, sql, i + 1, p)
    {
      StandsStep(Regular, sql, i, p);
      if i + 2 < |sql| {
        PlainMove(sql, i);
        assert sql[i..][0] == sql[i];
        Plain(sql[i..]);
      } else {
        ShortText(sql, i);
      }
    }
  }

  lemma ShortText(sql: string, i: nat)
    requires i <= |sql| <= i + 2
    ensures Next(Regular, sql[i..]) == GiveUp
  {
  }

  // ---------------------------------------------------------------- comments

  lemma {:induction false} CommentIsPassed(sql: string, j: nat, end: nat, p: nat)
    requires j <= |sql| && LineEnd(sql, j) == Some(end) && Stands(Mode.Comment, sql, j, p) && end <= p
    ensures Stands(Regular, sql, end, p)
    decreases |sql| - j
  {
    hide Stands;
    StandsStep(Mode.Comment, sql, j, p);
    assert sql[j..][0] == sql[j];
    if IsNewline(sql[j]) {
      PlainRunIsPassed(sql, j, j + 1, p);
    } else {
      CommentIsPassed(sql, j + 1, end, p);
    }
  }

  lemma LineCommentFollows(sql: string, i: nat, end: nat)
    requires i + 1 < |sql| && sql[i] == sql[i + 1] == '-' && LineEnd(sql, i + 2) == Some(end)
    ensures Follows(sql, i, end)
  {
    hide Stands, LineEnd, SpaceLength;
    forall p | end <= p && Stands(Regular, sql, i, p)
      ensures Stands(Regular, sql, end, p)
    {
      StandsStep(Regular, sql, i, p);
      StandsStep(Mode.Comment, sql, i + 1, p);
      if i + 2 < |sql| {
        assert sql[i..][0] == sql[i] && sql[i..][1] == sql[i + 1] && sql[i + 1..][0] == sql[i + 1];
        Plain(sql[i..]);
        if Stands(Mode.Comment, sql, i + 2, p) {
          CommentIsPassed(sql, i + 2, end, p);
        }
      }
    }
  }

  // ---------------------------------------------------------------- dollar signs

  /** The text is made of bytes. */
  predicate IsBytes(sql: string) { forall k :: 0 <= k < |sql| ==> sql[k] <= '\U{FF}' }

  /** A dollar sign and bytes of a tag that no dollar sign ends: the scan is back in mode Regular behind them. */
  lemma {:induction false} TagIsPassed(sql: string, j: nat, tag: string, p: nat) returns (x: nat)
    requires IsBytes(sql) && j <= |sql| && TagEnd(sql, j) == None && Stands(Tag(tag), sql, j, p)
    ensures j <= x < |sql| && !IsTagByte(sql[x]) && Stands(Regular, sql, x, p)
    ensures forall k :: j <= k < x ==> IsTagByte(sql[k])
    decreases |sql| - j
  {
    hide Stands;
    StandsStep(Tag(tag), sql, j, p);
    assert j + 2 < |sql|;
    assert sql[j..][0] == sql[j];
    if IsTagByte(sql[j]) {
      x := TagIsPassed(sql, j + 1, tag + sql[j..][..1], p);
    } else {
      x := j;
    }
  }

  lemma LoneDollarFollows(sql: string, i: nat)
    requires IsBytes(sql) && i + 1 < |sql| && sql[i] == '$' && (IsDigit(sql[i + 1]) || TagEnd(sql, i + 1) == None)
    ensures Follows(sql, i, i + 1)
  {
    hide Stands, TagEnd, SpaceLength, Next, PlainRun;
    if IsDigit(sql[i + 1]) || !IsFirstTagByte(sql[i + 1]) {
      LonePlain(sql, i);
      PlainFollows(sql, i, i + 1);
    } else {
      forall p | i + 1 <= p && Stands(Regular, sql, i, p)
        ensures Stands(Regular, sql, i + 1, p)
      {
        StandsStep(Regular, sql, i, p);
        OpensTag(sql, i);
        if i + 2 < |sql| {
          var x := TagIsPassed(sql, i + 1, [], p);
          StandsBehind(Regular, sql, x, p);
          TagIsPlain(sql, i + 1, x);
          PlainRunIsPassed(sql, i + 1, x, p);
        }
      }
    }
  }

  lemma LonePlain(sql: string, i: nat)
    requires i + 1 < |sql| && sql[i] == '$' && (IsDigit(sql[i + 1]) || (TagEnd(sql, i + 1) == None && !IsFirstTagByte(sql[i + 1])))
    ensures PlainRun(sql, i, i + 1)
  {
  }

  lemma OpensTag(sql: string, i: nat)
    requires i + 1 < |sql| && sql[i] == '$' && IsFirstTagByte(sql[i + 1])
    ensures Next(Regular, sql[i..]) == if i + 2 < |sql| then Go(Tag([]), 1) else GiveUp
  {
    hide SpaceLength;
    assert sql[i..][0] == sql[i] && sql[i..][1] == sql[i + 1];
    if i + 2 < |sql| {
      Plain(sql[i..]);
    }
  }

  lemma TagIsPlain(sql: string, j: nat, x: nat)
    requires j <= x < |sql| && !IsTagByte(sql[x]) && forall k :: j <= k < x ==> IsTagByte(sql[k])
    ensures PlainRun(sql, j, x)
  {
  }

  // ---------------------------------------------------------------- dollar quotes

  /** The closing marker of a dollar quote is clear of its opening marker and of what follows. */
  ghost predicate IsClear(sql: string, start: nat, marker: string, end: nat)
    requires start + 2 * (|marker| + 2) <= end <= |sql|
  {
    !MarkersOverlap(marker, sql[start + |marker| + 2..end - |marker| - 2]) && !Reopens(sql[end..])
  }

  lemma MarkerIsClosing(sql: string, k: nat, m: string)
    requires k <= |sql|
    ensures MarkerAt(sql, k, m) <==> ClosesDollarQuote(sql[k..], m)
  {
    if k + |m| + 2 <= |sql| {
      assert sql[k..][1..|m| + 1] == sql[k + 1..k + 1 + |m|];
    }
  }

  lemma BodyEndsAtMarker(sql: string, from: nat, m: string, close: nat)
    requires FirstMarker(sql, from, m, close)
    ensures EndsAtMarker(m, sql[from..close])
  {
    hide MarkerAt, ClosesDollarQuote, Marker;
    MarkerBounds(sql, from, m, close);
    MarkerIs(sql, close, m);
    var body, end := sql[from..close], close + |m| + 2;
    assert body + Marker(m) == sql[from..end];
    forall j | 0 <= j < |body|
      ensures !ClosesDollarQuote((body + Marker(m))[j..], m)
    {
      assert !MarkerAt(sql, from + j, m);
      MarkerIsClosing(sql, from + j, m);
      CloseInside(sql, from + j, end, m);
      assert sql[from..end][j..] == sql[from + j..end];
    }
  }

  lemma MarkerIs(sql: string, k: nat, m: string)
    requires MarkerAt(sql, k, m)
    ensures k + |m| + 2 <= |sql| && sql[k..k + |m| + 2] == Marker(m)
  {
    assert sql[k..k + |m| + 2] == [sql[k]] + sql[k + 1..k + 1 + |m|] + [sql[k + 1 + |m|]];
  }

  lemma CloseInside(sql: string, k: nat, end: nat, m: string)
    requires k <= end <= |sql|
    ensures ClosesDollarQuote(sql[k..end], m) ==> ClosesDollarQuote(sql[k..], m)
  {
    var long, short := sql[k..], sql[k..end];
    if |short| >= |m| + 2 {
      SliceOfSlice(sql, k, end, 1, |m| + 1);
      SliceOfSlice(sql, k, |sql|, 1, |m| + 1);
      assert sql[k..|sql|] == long;
    }
  }

  /** A dollar quote with clear markers, from its first byte. */
  lemma DollarFollows(sql: string, start: nat, m: string, close: nat)
    requires IsTag(m) && MarkerAt(sql, start, m) && FirstMarker(sql, start + |m| + 2, m, close)
    requires close + |m| + 2 <= |sql| && IsClear(sql, start, m, close + |m| + 2)
    ensures Follows(sql, start, close + |m| + 2) && Skips(sql, start, close + |m| + 2)
  {
    hide Passes, FirstMarker, EndsAtMarker, MarkersOverlap, Reopens, MarkerAt, IsTag;
    var from, end := start + |m| + 2, close + |m| + 2;
    MarkerBounds(sql, from, m, close);
    var body, rest := sql[from..close], sql[end..];
    BodyEndsAtMarker(sql, from, m, close);
    MarkerIs(sql, start, m);
    QuoteIsText(sql, start, m, close);
    forall p: nat | Stands(Regular, sql, start, p)
      ensures p == start || p == end - 1 || (end <= p && Stands(Regular, sql, end, p))
    {
      QuoteIsSkipped(m, body, rest, |sql| - p);
    }
    MarkerEnds(sql, start, m);
    MarkerEnds(sql, close, m);
  }

  lemma MarkerBounds(sql: string, from: nat, m: string, close: nat)
    requires FirstMarker(sql, from, m, close)
    ensures from <= close && MarkerAt(sql, close, m)
  {
  }

  lemma MarkerEnds(sql: string, k: nat, m: string)
    requires MarkerAt(sql, k, m)
    ensures k + |m| + 1 < |sql| && sql[k] == '$' && sql[k + |m| + 1] == '$'
  {
  }

  lemma QuoteIsText(sql: string, start: nat, m: string, close: nat)
    requires start + |m| + 2 <= close && close + |m| + 2 <= |sql| && MarkerAt(sql, start, m) && MarkerAt(sql, close, m)
    ensures sql[start..] == DollarQuote(m, sql[start + |m| + 2..close]) + sql[close + |m| + 2..]
    ensures |DollarQuote(m, sql[start + |m| + 2..close])| == close + |m| + 2 - start
  {
    MarkerIs(sql, start, m);
    MarkerIs(sql, close, m);
    var from, end := start + |m| + 2, close + |m| + 2;
    assert sql[start..] == sql[start..from] + sql[from..close] + sql[close..end] + sql[end..];
  }

  lemma {:induction false} TagBytes(sql: string, i: nat)
    requires i <= |sql| && TagEnd(sql, i).Some?
    ensures forall k :: i <= k < TagEnd(sql, i).value ==> IsDollarTagCharacter(sql[k])
    decreases |sql| - i
  {
    if sql[i] != '$' {
      TagBytes(sql, i + 1);
    }
  }

  lemma MarkerIsTag(sql: string, i: nat)
    requires i < |sql| && TagEnd(sql, i).Some? && !IsDigit(sql[i])
    ensures IsTag(MarkerOf(sql, i))
  {
    TagBytes(sql, i);
    var m := MarkerOf(sql, i);
    assert forall k :: 0 <= k < |m| ==> m[k] == sql[i + k];
  }

  // ---------------------------------------------------------------- where the scan comes to

  lemma {:induction false} QuoteIsLeft(sql: string, j: nat, quote: char, end: nat)
    requires j <= |sql| && CloseQuote(sql, j, quote) == Some(end) && end + 2 < |sql|
    ensures Stands(Quoted(quote), sql, j, end)
    decreases |sql| - j
  {
    hide Stands;
    StandsStep(Quoted(quote), sql, j, end);
    assert sql[j..][0] == sql[j] && sql[j..][1] == sql[j + 1];
    if sql[j] != quote {
      QuoteIsLeft(sql, j + 1, quote, end);
    } else if sql[j + 1] == quote {
      QuoteIsLeft(sql, j + 2, quote, end);
    } else {
      StandsAtOnce(sql, end);
    }
  }

  lemma QuoteComes(sql: string, i: nat, end: nat)
    requires i < |sql| && (sql[i] == '"' || sql[i] == '\'') && CloseQuote(sql, i + 1, sql[i]) == Some(end)
    ensures Comes(sql, i, end)
  {
    hide CloseQuote, SpaceLength;
    if end + 2 < |sql| {
      QuoteIsLeft(sql, i + 1, sql[i], end);
      StandsStep(Regular, sql, i, end);
      assert sql[i..][0] == sql[i];
      Plain(sql[i..]);
    }
  }

  lemma PrefixComes(sql: string, i: nat, end: nat)
    requires i + 1 < |sql| && IsStringPrefix(sql[i]) && sql[i + 1] == '\'' && CloseQuote(sql, i + 2, '\'') == Some(end)
    ensures Comes(sql, i, end)
  {
    hide CloseQuote, SpaceLength, Next, Passes;
    QuoteComes(sql, i + 1, end);
    if end + 2 < |sql| {
      StandsStep(Regular, sql, i, end);
      PlainMove(sql, i);
      assert sql[i..][0] == sql[i];
      Plain(sql[i..]);
    }
  }

  lemma {:induction false} CommentIsLeft(sql: string, j: nat, end: nat)
    requires j <= |sql| && LineEnd(sql, j) == Some(end) && end + 2 < |sql|
    ensures Stands(Mode.Comment, sql, j, end)
    decreases |sql| - j
  {
    hide Stands;
    StandsStep(Mode.Comment, sql, j, end);
    assert sql[j..][0] == sql[j];
    if IsNewline(sql[j]) {
      StandsAtOnce(sql, end);
      PlainRunIsPassed(sql, j, j + 1, end);
    } else {
      CommentIsLeft(sql, j + 1, end);
    }
  }

  lemma LineCommentComes(sql: string, i: nat, end: nat)
    requires i + 1 < |sql| && sql[i] == sql[i + 1] == '-' && LineEnd(sql, i + 2) == Some(end)
    ensures Comes(sql, i, end)
  {
    hide LineEnd, SpaceLength;
    if end + 2 < |sql| {
      CommentIsLeft(sql, i + 2, end);
      StandsStep(Regular, sql, i, end);
      StandsStep(Mode.Comment, sql, i + 1, end);
      assert sql[i..][0] == sql[i] && sql[i..][1] == sql[i + 1] && sql[i + 1..][0] == sql[i + 1];
      Plain(sql[i..]);
    }
  }

  /** The stretch of a block comment ends as one. */
  lemma BlockEndsComment(sql: string, i: nat, end: nat)
    requires i + 1 < |sql| && BlockEnd(sql, i + 2) == Some(end)
    ensures i + 4 <= end && EndsComment(sql[i..end])
  {
    hide BlockEnd;
    BlockEndIsFirst(sql, i + 2);
  }

  lemma BlockCommentComes(sql: string, i: nat, end: nat)
    requires i + 1 < |sql| && BlockEnd(sql, i + 2) == Some(end) && ModeBehind(Regular, sql[i..end]) == Regular
    ensures Comes(sql, i, end)
  {
    hide BlockEnd, ModeBehind, Passes;
    BlockEndsComment(sql, i, end);
    if end + 2 < |sql| {
      ComesOut(Regular, sql[i..end], sql[end..]);
      assert sql[i..end] + sql[end..] == sql[i..];
    }
  }

  lemma DollarComes(sql: string, start: nat, m: string, close: nat)
    requires IsTag(m) && MarkerAt(sql, start, m) && FirstMarker(sql, start + |m| + 2, m, close)
    requires close + |m| + 2 <= |sql| && IsClear(sql, start, m, close + |m| + 2)
    ensures Comes(sql, start, close + |m| + 2)
  {
    hide Passes, FirstMarker, EndsAtMarker, MarkersOverlap, Reopens, MarkerAt, IsTag;
    var from, end := start + |m| + 2, close + |m| + 2;
    MarkerBounds(sql, from, m, close);
    BodyEndsAtMarker(sql, from, m, close);
    QuoteIsText(sql, start, m, close);
    QuoteIsLeftAtItsEnd(m, sql[from..close], sql[end..]);
  }

  /** For example when no byte of the comment makes the scan leave mode Regular. */
  lemma {:induction false} PlainIsLeftRegular(c: string)
    requires c == "" || EndsComment(c)
    requires forall k :: 0 <= k < |c| ==> !LeavesRegular(c, k)
    ensures ModeBehind(Regular, c) == Regular
    decreases |c|
  {
    hide SpaceLength;
    if c != "" {
      var s := c + "   ";
      assert !LeavesRegular(c, 0) && s[0] == c[0] && (|c| > 1 ==> s[1] == c[1]);
      SpaceInside(c, "   ");
      var n := if SpaceLength(s) > 0 then SpaceLength(s) else 1;
      assert forall k :: 0 <= k < |c| - n ==> c[n..][k] == c[k + n] && (LeavesRegular(c[n..], k) ==> LeavesRegular(c, k + n));
      PlainIsLeftRegular(c[n..]);
    }
  }
}
