/**
 The scanner for Unicode spaces: a machine of four linked loops that records spans, and the splice that
 replaces them.
 */
module UnicodeScanner {
  import opened UnicodeSpaces
  import opened UnicodeMoves

  datatype Target = GoRegular | GoInQuotes | GoInDollarQuotes | GoInComment | GoEnd

  // ---------------------------------------------------------------- the scan, on values

  /** How far the text was dealt with: past the last span, even when the position is still inside it. */
  function Passed(pos: nat, spaces: seq<UnicodeSpace>): nat {
    if spaces != [] && End(spaces[|spaces| - 1]) > pos then End(spaces[|spaces| - 1]) else pos
  }

  /** The spans so far; where the position is inside a span only continuation bytes are left of it. */
  ghost predicate ScanOk(query: string, pos: nat, spaces: seq<UnicodeSpace>) {
    && AreSpans(query, spaces, Passed(pos, spaces))
    && forall k :: pos <= k < Passed(pos, spaces) ==> '\U{80}' <= query[k] <= '\U{BF}'
  }

  /** What the whole scan comes to: the text with its Unicode spaces replaced, and the spans. */
  datatype Scanned = Scanned(text: string, spaces: seq<UnicodeSpace>)

  /** The text rewritten so far with the spans so far, and the rest of it scanned in one pass. */
  ghost function Outcome(query: string, pos: nat, spaces: seq<UnicodeSpace>, mode: Mode): Scanned
    requires ScanOk(query, pos, spaces)
  {
    var passed := Passed(pos, spaces);
    Scanned(Rewritten(query, spaces, passed) + Clean(mode, query[passed..]), spaces + Found(mode, query[passed..], passed))
  }

  /** From `pos` the text is copied up to `to`, and the scan goes on in another mode. */
  ghost predicate Copies(query: string, mode: Mode, pos: nat, to: nat, next: Mode) {
    && pos <= to <= |query|
    && Clean(mode, query[pos..]) == query[pos..to] + Clean(next, query[to..])
    && Found(mode, query[pos..], pos) == Found(next, query[to..], to)
  }

  lemma Copy(query: string, pos: nat, spaces: seq<UnicodeSpace>, mode: Mode, to: nat, next: Mode)
    requires ScanOk(query, pos, spaces) && Passed(pos, spaces) == pos && Copies(query, mode, pos, to, next)
    ensures ScanOk(query, to, spaces) && Passed(to, spaces) == to
    ensures Outcome(query, to, spaces, next) == Outcome(query, pos, spaces, mode)
  {
    hide Clean, Found, Rewritten, IsSpaceAt;
    RewrittenFurther(query, spaces, pos, to);
    assert Rewritten(query, spaces, pos) + (query[pos..to] + Clean(next, query[to..]))
        == Rewritten(query, spaces, pos) + query[pos..to] + Clean(next, query[to..]);
  }

  /** One move of the scan that is not over a Unicode space copies its bytes. */
  lemma MoveCopies(query: string, pos: nat, mode: Mode)
    requires pos <= |query| && Next(mode, query[pos..]).Go? && !(mode.Regular? && SpaceLength(query[pos..]) > 0)
    ensures Copies(query, mode, pos, pos + Next(mode, query[pos..]).bytes, Next(mode, query[pos..]).next)
  {
    hide Clean, Found, Next, SpaceLength;
    var s, bytes := query[pos..], Next(mode, query[pos..]).bytes;
    MovesRewrite(mode, s);
    MovesFind(mode, s, pos);
    assert s[..bytes] == query[pos..pos + bytes] && s[bytes..] == query[pos + bytes..];
  }

  /** Inside a span the regular loop passes over continuation bytes. */
  lemma PassOver(query: string, pos: nat, spaces: seq<UnicodeSpace>)
    requires ScanOk(query, pos, spaces) && pos < Passed(pos, spaces) && pos + 2 < |query|
    ensures SpaceLength(query[pos..]) == 0 && !OpensDollarQuote(query[pos..]) && query[pos] !in {'"', '\'', '-'}
    ensures ScanOk(query, pos + 1, spaces) && Passed(pos + 1, spaces) == Passed(pos, spaces)
  {
    hide AreSpans;
    assert query[pos..][0] == query[pos];
  }

  lemma SpaceBytes(s: string)
    requires |s| > 2 && SpaceLength(s) > 0
    ensures '\U{80}' <= s[1] <= '\U{BF}' && (SpaceLength(s) == 3 ==> '\U{80}' <= s[2] <= '\U{BF}')
  {
  }

  lemma Record(query: string, pos: nat, spaces: seq<UnicodeSpace>)
    requires ScanOk(query, pos, spaces) && Passed(pos, spaces) == pos && pos + 2 < |query| && SpaceLength(query[pos..]) > 0
    ensures var u := UnicodeSpace(pos, SpaceLength(query[pos..]));
            && Passed(pos + 1, spaces + [u]) == End(u) && ScanOk(query, pos + 1, spaces + [u])
            && Outcome(query, pos + 1, spaces + [u], Regular) == Outcome(query, pos, spaces, Regular)
  {
    hide SpaceLength, AreSpans, Rewritten, Clean, Found, IsSpaceAt;
    var u := UnicodeSpace(pos, SpaceLength(query[pos..]));
    SpaceBytes(query[pos..]);
    assert query[pos..][1] == query[pos + 1] && query[pos..][2] == query[pos + 2];
    OneMoreSpan(query, spaces, pos, u);
    CleanSpace(query, pos);
    assert Rewritten(query, spaces, pos) + (" " + Clean(Regular, query[End(u)..]))
        == Rewritten(query, spaces, pos) + " " + Clean(Regular, query[End(u)..]);
    var found := Found(Regular, query[End(u)..], End(u));
    assert spaces + ([u] + found) == spaces + [u] + found;
  }

  lemma CleanSpace(query: string, pos: nat)
    requires pos + 2 < |query| && SpaceLength(query[pos..]) > 0
    ensures var n := SpaceLength(query[pos..]);
            && Clean(Regular, query[pos..]) == " " + Clean(Regular, query[pos + n..])
            && Found(Regular, query[pos..], pos) == [UnicodeSpace(pos, n)] + Found(Regular, query[pos + n..], pos + n)
  {
    hide SpaceLength, Found;
    MovesFind(Regular, query[pos..], pos);
    assert query[pos..][SpaceLength(query[pos..])..] == query[pos + SpaceLength(query[pos..])..];
  }

  lemma OneMoreSpan(query: string, spaces: seq<UnicodeSpace>, to: nat, u: UnicodeSpace)
    requires AreSpans(query, spaces, to) && to <= u.pos && u.pos + 2 < |query|
    requires u.bytes > 0 && u.bytes == SpaceLength(query[u.pos..])
    ensures End(u) <= |query| && AreSpans(query, spaces + [u], End(u))
    ensures Rewritten(query, spaces + [u], End(u)) == Rewritten(query, spaces, u.pos) + " "
  {
    hide SpaceLength;
    var all := spaces + [u];
    assert all[..|all| - 1] == spaces && all[|all| - 1] == u;
  }

  /** What the scan does where no Unicode space starts. */
  lemma RegularStep(query: string, pos: nat)
    requires pos + 2 < |query| && SpaceLength(query[pos..]) == 0
    ensures var s := query[pos..];
            && s[0] == query[pos] && s[1] == query[pos + 1]
            && Copies(query, Regular, pos, pos + 1,
                 if s[0] == '"' || s[0] == '\'' then Quoted(s[0]) else if OpensDollarQuote(s) then Tag([])
                 else if s[0] == '-' && s[1] == '-' then Comment else Regular)
  {
    hide SpaceLength, OpensDollarQuote, Copies;
    MoveCopies(query, pos, Regular);
  }

  lemma QuotedStep(query: string, pos: nat, quote: char)
    requires pos + 1 < |query|
    ensures if query[pos] != quote then Copies(query, Quoted(quote), pos, pos + 1, Quoted(quote))
            else if query[pos + 1] == quote then Copies(query, Quoted(quote), pos, pos + 2, Quoted(quote))
            else Copies(query, Quoted(quote), pos, pos + 1, Regular)
  {
    hide Copies;
    MoveCopies(query, pos, Quoted(quote));
  }

  lemma TagStep(query: string, start: nat, pos: nat)
    requires start <= pos && pos + 2 < |query|
    ensures var tag := query[start..pos];
            if query[pos] == '$' then Copies(query, Tag(tag), pos, pos, DollarQuoted(tag))
            else if !IsTagByte(query[pos]) then Copies(query, Tag(tag), pos, pos, Regular)
            else Copies(query, Tag(tag), pos, pos + 1, Tag(query[start..pos + 1]))
  {
    hide Copies;
    MoveCopies(query, pos, Tag(query[start..pos]));
    assert query[start..pos] + query[pos..][..1] == query[start..pos + 1];
  }

  lemma DollarStep(query: string, pos: nat, tag: string)
    requires pos + 2 < |query|
    ensures if ClosesDollarQuote(query[pos..], tag) then Copies(query, DollarQuoted(tag), pos, pos + |tag| + 1, Regular)
            else Copies(query, DollarQuoted(tag), pos, pos + 1, DollarQuoted(tag))
  {
    hide Copies, ClosesDollarQuote;
    MoveCopies(query, pos, DollarQuoted(tag));
  }

  lemma CommentStep(query: string, pos: nat)
    requires pos < |query|
    ensures if query[pos] == '\n' || query[pos] == '\r' then Copies(query, Comment, pos, pos, Regular)
            else Copies(query, Comment, pos, pos + 1, Comment)
  {
    hide Copies;
    MoveCopies(query, pos, Comment);
  }

  /** The first dash may as well be read as part of the comment. */
  lemma EntersComment(query: string, pos: nat)
    requires pos + 2 < |query| && SpaceLength(query[pos..]) == 0 && query[pos] == query[pos + 1] == '-'
    ensures Copies(query, Regular, pos, pos, Comment)
  {
    hide SpaceLength, Clean, Found;
    RegularStep(query, pos);
    CommentStep(query, pos);
    assert query[pos..pos] + Clean(Comment, query[pos..]) == Clean(Comment, query[pos..]);
  }

  lemma AtOrInside(query: string, pos: nat, spaces: seq<UnicodeSpace>)
    requires ScanOk(query, pos, spaces)
    ensures pos <= Passed(pos, spaces) <= |query|
  {
  }

  lemma SameOutcome(query: string, pos: nat, spaces: seq<UnicodeSpace>)
    requires ScanOk(query, pos, spaces) && ScanOk(query, pos + 1, spaces) && Passed(pos + 1, spaces) == Passed(pos, spaces)
    ensures Outcome(query, pos + 1, spaces, Regular) == Outcome(query, pos, spaces, Regular)
  {
  }

  /** Where too few bytes are left the rest is copied. */
  lemma TooShort(query: string, pos: nat, mode: Mode)
    requires pos <= |query|
    requires |query| - pos <= if mode.Comment? then 0 else if mode.Quoted? then 1 else 2
    ensures Clean(mode, query[pos..]) == query[pos..] && Copies(query, mode, pos, pos, Done)
  {
    var s := query[pos..];
    MovesFind(mode, s, pos);
    MovesRewrite(mode, s);
    assert query[pos..pos] + s == s;
  }

  /** Replacing what the scan finds is the rewriting. */
  lemma {:induction false} FoundRewrites(query: string, pos: nat, spaces: seq<UnicodeSpace>, mode: Mode)
    requires AreSpans(query, spaces, pos)
    ensures var all := spaces + Found(mode, query[pos..], pos);
            && AreSpans(query, all, |query|)
            && Rewritten(query, all, |query|) == Rewritten(query, spaces, pos) + Clean(mode, query[pos..])
    decreases |query| - pos, Order(mode)
  {
    hide SpaceLength, AreSpans, Rewritten, Clean, Found, Next;
    Within(query, spaces, pos);
    var s := query[pos..];
    MovesRewrite(mode, s);
    MovesFind(mode, s, pos);
    match Next(mode, s)
    case GiveUp =>
      RewrittenFurther(query, spaces, pos, |query|);
      SpansFurther(query, spaces, pos, |query|);
      assert spaces + [] == spaces;
    case Go(next, bytes) =>
      if mode.Regular? && |s| > 2 && SpaceLength(s) > 0 {
        var u := UnicodeSpace(pos, SpaceLength(s));
        CleanSpace(query, pos);
        OneMoreSpan(query, spaces, pos, u);
        FoundRewrites(query, End(u), spaces + [u], Regular);
        assert spaces + ([u] + Found(Regular, query[End(u)..], End(u))) == spaces + [u] + Found(Regular, query[End(u)..], End(u));
        assert Rewritten(query, spaces, pos) + (" " + Clean(Regular, query[End(u)..]))
            == Rewritten(query, spaces, pos) + " " + Clean(Regular, query[End(u)..]);
      } else {
        CopyRewrites(query, pos, spaces, mode);
        FoundRewrites(query, pos + bytes, spaces, next);
        assert Rewritten(query, spaces, pos) + (query[pos..pos + bytes] + Clean(next, query[pos + bytes..]))
            == Rewritten(query, spaces, pos) + query[pos..pos + bytes] + Clean(next, query[pos + bytes..]);
      }
  }

  lemma CopyRewrites(query: string, pos: nat, spaces: seq<UnicodeSpace>, mode: Mode)
    requires AreSpans(query, spaces, pos) && pos <= |query| && Next(mode, query[pos..]).Go?
    requires !(mode.Regular? && |query| - pos > 2 && SpaceLength(query[pos..]) > 0)
    ensures var to := pos + Next(mode, query[pos..]).bytes;
            && Copies(query, mode, pos, to, Next(mode, query[pos..]).next) && AreSpans(query, spaces, to)
            && Rewritten(query, spaces, to) == Rewritten(query, spaces, pos) + query[pos..to]
  {
    hide SpaceLength, AreSpans, Rewritten, Clean, Found, OpensDollarQuote;
    MoveCopies(query, pos, mode);
    RewrittenFurther(query, spaces, pos, pos + Next(mode, query[pos..]).bytes);
    SpansFurther(query, spaces, pos, pos + Next(mode, query[pos..]).bytes);
  }

  lemma SpansFurther(query: string, spaces: seq<UnicodeSpace>, to: nat, further: nat)
    requires AreSpans(query, spaces, to) && to <= further <= |query|
    ensures AreSpans(query, spaces, further)
  {
  }

  lemma TooFewLeft(query: string, pos: nat, spaces: seq<UnicodeSpace>)
    requires ScanOk(query, pos, spaces) && pos + 2 >= |query|
    ensures Outcome(query, pos, spaces, Regular) == Outcome(query, pos, spaces, Done)
  {
    hide Clean, Found, Rewritten;
    TooShort(query, Passed(pos, spaces), Regular);
    assert query[Passed(pos, spaces)..Passed(pos, spaces)] == "";
  }

  lemma Start(query: string)
    ensures ScanOk(query, 0, []) && Passed(0, []) == 0
    ensures Outcome(query, 0, [], Regular) == Scanned(Clean(Regular, query), Found(Regular, query, 0))
  {
    hide Clean, Found;
    assert query[..0] == "" && query[0..] == query;
    assert [] + Found(Regular, query, 0) == Found(Regular, query, 0);
  }

  lemma AtTheEnd(query: string, pos: nat, spaces: seq<UnicodeSpace>)
    requires ScanOk(query, pos, spaces)
    ensures AreSpans(query, spaces, |query|)
    ensures Outcome(query, pos, spaces, Done) == Scanned(Rewritten(query, spaces, |query|), spaces)
  {
    hide Rewritten, IsSpaceAt;
    assert spaces + [] == spaces;
    RewrittenFurther(query, spaces, Passed(pos, spaces), |query|);
  }

  // ---------------------------------------------------------------- the scanner

  class Scanner {
    const query: string
    var pos: nat
    var quote: char
    var dollarQuoteTag: string
    var unicodeSpaces: seq<UnicodeSpace>

    constructor (query: string)
      ensures this.query == query && pos == 0 && unicodeSpaces == []
    {
      this.query := query;
      pos, quote, dollarQuoteTag, unicodeSpaces := 0, ' ', [], [];
    }

    ghost function ModeOf(to: Target): Mode
      reads this
    {
      match to
      case GoRegular => Regular
      case GoInQuotes => Quoted(quote)
      case GoInDollarQuotes => DollarQuoted(dollarQuoteTag)
      case GoInComment => Comment
      case GoEnd => Done
    }

    ghost predicate Valid()
      reads this
    {
      ScanOk(query, pos, unicodeSpaces)
    }

    /** A loop may be entered here: not inside a span. */
    ghost predicate Ready()
      reads this
    {
      Valid() && Passed(pos, unicodeSpaces) == pos
    }

    ghost function Result(to: Target): Scanned
      requires Valid()
      reads this
    {
      Outcome(query, pos, unicodeSpaces, ModeOf(to))
    }

    method ScanRegular() returns (to: Target)
      requires Ready()
      modifies this
      ensures Valid() && (to != GoEnd ==> Ready()) && Result(to) == old(Result(GoRegular))
      ensures pos >= old(pos) && (to == GoInComment ==> pos < |query| && query[pos] == '-')
      ensures to in {GoInQuotes, GoInDollarQuotes, GoRegular} ==> pos > old(pos)
    {
      hide ScanOk, Outcome, Copies, SpaceLength, Passed, OpensDollarQuote;
      ghost var all := Result(GoRegular);
      while pos + 2 < |query|
        invariant Valid() && Result(GoRegular) == all && pos >= old(pos)
      {
        ghost var inside := pos < Passed(pos, unicodeSpaces);
        AtOrInside(query, pos, unicodeSpaces);
        if inside {
          PassOver(query, pos, unicodeSpaces);
          SameOutcome(query, pos, unicodeSpaces);
        }
        var n := SpaceLength(query[pos..]);
        if n > 0 {
          Record(query, pos, unicodeSpaces);
          unicodeSpaces := unicodeSpaces + [UnicodeSpace(pos, n)];
        } else {
          RegularStep(query, pos);
          if query[pos] == '"' || query[pos] == '\'' {
            Copy(query, pos, unicodeSpaces, Regular, pos + 1, Quoted(query[pos]));
            quote := query[pos];
            pos := pos + 1;
            return GoInQuotes;
          } else if OpensDollarQuote(query[pos..]) {
            Copy(query, pos, unicodeSpaces, Regular, pos + 1, Tag([]));
            pos := pos + 1;
            to := ScanTag();
            return;
          } else if query[pos] == '-' && query[pos + 1] == '-' {
            EntersComment(query, pos);
            Copy(query, pos, unicodeSpaces, Regular, pos, Comment);
            return GoInComment;
          } else if !inside {
            Copy(query, pos, unicodeSpaces, Regular, pos + 1, Regular);
          }
        }
        pos := pos + 1;
      }
      TooFewLeft(query, pos, unicodeSpaces);
      return GoEnd;
    }

    /** The tag after a dollar sign; a byte that no tag has makes it plain text. */
    method ScanTag() returns (to: Target)
      requires Ready()
      modifies this`pos, this`dollarQuoteTag
      ensures Valid() && (to != GoEnd ==> Ready()) && pos >= old(pos) && to in {GoInDollarQuotes, GoRegular, GoEnd}
      ensures Result(to) == old(Outcome(query, pos, unicodeSpaces, Tag([])))
    {
      hide ScanOk, Outcome, Copies, Passed;
      var start := pos;
      AtOrInside(query, pos, unicodeSpaces);
      assert query[start..pos] == [];
      ghost var all := Outcome(query, pos, unicodeSpaces, Tag([]));
      while pos + 2 < |query|
        invariant Ready() && start <= pos <= |query|
        invariant Outcome(query, pos, unicodeSpaces, Tag(query[start..pos])) == all
      {
        TagStep(query, start, pos);
        if query[pos] == '$' {
          dollarQuoteTag := query[start..pos];
          Copy(query, pos, unicodeSpaces, Tag(dollarQuoteTag), pos, DollarQuoted(dollarQuoteTag));
          return GoInDollarQuotes;
        }
        if !IsTagByte(query[pos]) {
          Copy(query, pos, unicodeSpaces, Tag(query[start..pos]), pos, Regular);
          return GoRegular;
        }
        Copy(query, pos, unicodeSpaces, Tag(query[start..pos]), pos + 1, Tag(query[start..pos + 1]));
        pos := pos + 1;
      }
      TooShort(query, pos, Tag(query[start..pos]));
      Copy(query, pos, unicodeSpaces, Tag(query[start..pos]), pos, Done);
      to := GoEnd;
    }

    method ScanInQuotes() returns (to: Target)
      requires Ready()
      modifies this`pos
      ensures Valid() && (to != GoEnd ==> Ready()) && Result(to) == old(Result(GoInQuotes))
      ensures to == GoEnd || (to == GoRegular && pos > old(pos))
    {
      hide ScanOk, Outcome, Copies, Passed;
      ghost var all := Result(GoInQuotes);
      while pos + 1 < |query|
        invariant Ready() && Result(GoInQuotes) == all && pos >= old(pos)
      {
        QuotedStep(query, pos, quote);
        if query[pos] == quote {
          if query[pos + 1] == quote {
            Copy(query, pos, unicodeSpaces, Quoted(quote), pos + 2, Quoted(quote));
            pos := pos + 2;
            continue;
          }
          Copy(query, pos, unicodeSpaces, Quoted(quote), pos + 1, Regular);
          pos := pos + 1;
          return GoRegular;
        }
        Copy(query, pos, unicodeSpaces, Quoted(quote), pos + 1, Quoted(quote));
        pos := pos + 1;
      }
      AtOrInside(query, pos, unicodeSpaces);
      TooShort(query, pos, Quoted(quote));
      Copy(query, pos, unicodeSpaces, Quoted(quote), pos, Done);
      to := GoEnd;
    }

    method ScanInDollarQuotes() returns (to: Target)
      requires Ready()
      modifies this`pos
      ensures Valid() && (to != GoEnd ==> Ready()) && Result(to) == old(Result(GoInDollarQuotes))
      ensures to == GoEnd || (to == GoRegular && pos > old(pos))
    {
      hide ScanOk, Outcome, Copies, Passed;
      ghost var all := Result(GoInDollarQuotes);
      while pos + 2 < |query|
        invariant Ready() && Result(GoInDollarQuotes) == all && pos >= old(pos)
      {
        DollarStep(query, pos, dollarQuoteTag);
        if ClosesDollarQuote(query[pos..], dollarQuoteTag) {
          Copy(query, pos, unicodeSpaces, DollarQuoted(dollarQuoteTag), pos + |dollarQuoteTag| + 1, Regular);
          pos := pos + |dollarQuoteTag| + 1;
          return GoRegular;
        }
        Copy(query, pos, unicodeSpaces, DollarQuoted(dollarQuoteTag), pos + 1, DollarQuoted(dollarQuoteTag));
        pos := pos + 1;
      }
      AtOrInside(query, pos, unicodeSpaces);
      TooShort(query, pos, DollarQuoted(dollarQuoteTag));
      Copy(query, pos, unicodeSpaces, DollarQuoted(dollarQuoteTag), pos, Done);
      to := GoEnd;
    }

    method ScanInComment() returns (to: Target)
      requires Ready() && pos < |query| && query[pos] == '-'
      modifies this`pos
      ensures Valid() && (to != GoEnd ==> Ready()) && Result(to) == old(Result(GoInComment))
      ensures to == GoEnd || (to == GoRegular && pos > old(pos))
    {
      hide ScanOk, Outcome, Copies, Passed;
      ghost var all := Result(GoInComment);
      while pos < |query|
        invariant Ready() && Result(GoInComment) == all && old(pos) <= pos
      {
        CommentStep(query, pos);
        if query[pos] == '\n' || query[pos] == '\r' {
          Copy(query, pos, unicodeSpaces, Comment, pos, Regular);
          return GoRegular;
        }
        Copy(query, pos, unicodeSpaces, Comment, pos + 1, Comment);
        pos := pos + 1;
      }
      AtOrInside(query, pos, unicodeSpaces);
      TooShort(query, pos, Comment);
      Copy(query, pos, unicodeSpaces, Comment, pos, Done);
      to := GoEnd;
    }

    /** Runs the loops until one of them reaches the end. */
    method Scan()
      requires pos == 0 && unicodeSpaces == []
      modifies this
      ensures AreSpans(query, unicodeSpaces, |query|)
      ensures Rewritten(query, unicodeSpaces, |query|) == Clean(Regular, query)
      ensures unicodeSpaces == Found(Regular, query, 0)
    {
      hide ScanOk, Outcome, Clean, Found, Passed, AreSpans, Rewritten;
      Start(query);
      var to := GoRegular;
      while to != GoEnd
        invariant Valid() && (to != GoEnd ==> Ready()) && Result(to) == Scanned(Clean(Regular, query), Found(Regular, query, 0))
        invariant to == GoInComment ==> pos < |query| && query[pos] == '-'
        decreases if to == GoEnd then 0 else 1, |query| - pos, if to == GoInComment then 0 else 1
      {
        AtOrInside(query, pos, unicodeSpaces);
        match to {
          case GoRegular => to := ScanRegular();
          case GoInQuotes => to := ScanInQuotes();
          case GoInDollarQuotes => to := ScanInDollarQuotes();
          case GoInComment => to := ScanInComment();
        }
        AtOrInside(query, pos, unicodeSpaces);
      }
      AtTheEnd(query, pos, unicodeSpaces);
    }
  }

  /** Builds the text with every span replaced.  Without spans it gives no text. */
  method ReplaceUnicodeSpaces(query: string, unicodeSpaces: seq<UnicodeSpace>) returns (found: bool, newQuery: string)
    requires AreSpans(query, unicodeSpaces, |query|)
    ensures found == (unicodeSpaces != [])
    ensures newQuery == if found then Rewritten(query, unicodeSpaces, |query|) else ""
  {
    hide IsSpaceAt, AreSpans, Rewritten;
    newQuery := "";
    if unicodeSpaces == [] {
      return false, newQuery;
    }
    var prev: nat := 0;
    NoSpans(query, 0);
    assert unicodeSpaces[..0] == [];
    for i := 0 to |unicodeSpaces|
      invariant if i == 0 then prev == 0 else prev == End(unicodeSpaces[i - 1])
      invariant prev <= |query| && AreSpans(query, unicodeSpaces[..i], prev)
      invariant newQuery == Rewritten(query, unicodeSpaces[..i], prev)
    {
      var usp := unicodeSpaces[i];
      SpliceStep(query, unicodeSpaces, i, prev);
      newQuery := newQuery + query[prev..usp.pos];
      newQuery := newQuery + " ";
      prev := End(usp);
    }
    assert unicodeSpaces[..|unicodeSpaces|] == unicodeSpaces;
    RewrittenFurther(query, unicodeSpaces, prev, |query|);
    newQuery := newQuery + query[prev..];
    found := true;
  }

  lemma SpliceStep(query: string, spaces: seq<UnicodeSpace>, i: nat, prev: nat)
    requires AreSpans(query, spaces, |query|) && i < |spaces| && AreSpans(query, spaces[..i], prev)
    requires i == 0 ==> prev == 0
    requires i > 0 ==> prev == End(spaces[i - 1])
    ensures prev <= spaces[i].pos < End(spaces[i]) <= |query|
    ensures AreSpans(query, spaces[..i + 1], End(spaces[i]))
    ensures Rewritten(query, spaces[..i + 1], End(spaces[i]))
         == Rewritten(query, spaces[..i], prev) + query[prev..spaces[i].pos] + " "
  {
    hide SpaceLength, Rewritten;
    var u := spaces[i];
    assert spaces[..i + 1] == spaces[..i] + [u];
    assert IsSpaceAt(query, u);
    RewrittenFurther(query, spaces[..i], prev, u.pos);
    OneMoreSpan(query, spaces[..i], prev, u);
  }

  /** The query with its Unicode spaces replaced, when it has any that count. */
  method StripUnicodeSpaces(query: string) returns (found: bool, newQuery: string, ghost spaces: seq<UnicodeSpace>)
    ensures AreSpans(query, spaces, |query|) && found == (spaces != [])
    ensures Rewritten(query, spaces, |query|) == Clean(Regular, query) && spaces == Found(Regular, query, 0)
    ensures newQuery == if found then Clean(Regular, query) else ""
    ensures !found ==> Clean(Regular, query) == query
  {
    hide AreSpans, Clean, Found;
    var scanner := new Scanner(query);
    scanner.Scan();
    spaces := scanner.unicodeSpaces;
    found, newQuery := ReplaceUnicodeSpaces(query, scanner.unicodeSpaces);
    assert query[..|query|] == query;
  }
}
