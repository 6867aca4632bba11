/**
 A query whose Unicode spaces were replaced has none left to replace.
 */
module UnicodeStripTwice {
  import opened UnicodeSpaces

  /** The first byte of a text stays, unless it begins a Unicode space outside of quotes and comments. */
  lemma {:induction false} FirstByte(mode: Mode, s: string)
    requires s != []
    ensures Clean(mode, s) != []
    ensures Clean(mode, s)[0] == s[0] || (mode.Regular? && Clean(mode, s)[0] == ' ' && s[0] >= '\U{80}')
    decreases |s|, Order(mode)
  {
    hide SpaceLength, OpensDollarQuote;
    if mode.Tag? && |s| > 2 && s[0] == '$' {
      FirstByte(DollarQuoted(mode.tag), s);
    } else if mode.Tag? && |s| > 2 && !IsTagByte(s[0]) {
      FirstByte(Regular, s);
    } else if mode.Comment? && (s[0] == '\n' || s[0] == '\r') {
      FirstByte(Regular, s);
    } else if mode.Regular? && |s| > 2 && SpaceLength(s) > 0 {
      SpaceLead(s);
    }
  }

  lemma SpaceLead(s: string)
    requires |s| > 2 && SpaceLength(s) > 0
    ensures s[0] >= '\U{80}'
  {
  }

  /** No Unicode space comes into being where there was none: its second and third byte would have stayed. */
  lemma NoNewSpace(s: string)
    requires |s| > 2 && SpaceLength(s) == 0
    ensures var t := s[..1] + Clean(Regular, s[1..]); |t| > 2 ==> SpaceLength(t) == 0
  {
    hide Clean, OpensDollarQuote;
    var u := Clean(Regular, s[1..]);
    FirstByte(Regular, s[1..]);
    if '\U{80}' <= s[1] <= '\U{BF}' {
      PlainByte(s[1..]);
      if |s| > 3 {
        FirstByte(Regular, s[2..]);
        assert s[1..][1..] == s[2..];
      }
    }
  }

  lemma PlainByte(s: string)
    requires s != [] && '\U{80}' <= s[0] <= '\U{BF}'
    ensures Clean(Regular, s) == if |s| <= 2 then s else s[..1] + Clean(Regular, s[1..])
  {
    hide SpaceLength, OpensDollarQuote;
    if |s| > 2 {
      ContinuationIsPlain(s);
    }
  }

  lemma ContinuationIsPlain(s: string)
    requires |s| > 2 && '\U{80}' <= s[0] <= '\U{BF}'
    ensures SpaceLength(s) == 0 && !OpensDollarQuote(s)
  {
  }

  /** The tag of a dollar quote has no dollar sign, and quotes are quotation marks. */
  predicate ModeOk(mode: Mode) {
    && ((mode.Tag? || mode.DollarQuoted?) ==> '$' !in mode.tag)
    && (mode.Quoted? ==> mode.quote == '"' || mode.quote == '\'')
  }

  /** Inside a dollar quote everything up to the next dollar sign is copied, and the sign itself. */
  lemma {:induction false} CopiedToDollar(tag: string, s: string, n: nat)
    requires n <= |s| && '$' !in s[..n]
    ensures n <= |Clean(DollarQuoted(tag), s)| && Clean(DollarQuoted(tag), s)[..n] == s[..n]
    ensures n < |s| ==> n < |Clean(DollarQuoted(tag), s)| && Clean(DollarQuoted(tag), s)[n] == s[n]
    ensures n == |s| ==> Clean(DollarQuoted(tag), s) == s
  {
    hide SpaceLength;
    if s != [] {
      FirstByte(DollarQuoted(tag), s);
    }
    if |s| > 2 && n > 0 {
      assert s[..n][0] == s[0];
      assert s[1..][..n - 1] == s[..n][1..];
      CopiedToDollar(tag, s[1..], n - 1);
      assert s[..n] == s[..1] + s[1..][..n - 1];
    }
  }

  function FirstDollar(s: string): (n: nat)
    ensures n <= |s| && '$' !in s[..n] && (n < |s| ==> s[n] == '$')
  {
    if s == [] || s[0] == '$' then 0
    else
      assert s[..1 + FirstDollar(s[1..])] == s[..1] + s[1..][..FirstDollar(s[1..])];
      1 + FirstDollar(s[1..])
  }

  /** Copying a byte inside a dollar quote makes no closing marker. */
  lemma NoNewMarker(tag: string, s: string)
    requires |s| > 2 && '$' !in tag && !ClosesDollarQuote(s, tag)
    ensures !ClosesDollarQuote(s[..1] + Clean(DollarQuoted(tag), s[1..]), tag)
  {
    hide Clean;
    var rest, n := s[1..], FirstDollar(s[1..]);
    var u := Clean(DollarQuoted(tag), rest);
    var t := s[..1] + u;
    CopiedToDollar(tag, rest, n);
    if n == |rest| {
      assert t == s;
    } else if |t| >= |tag| + 2 {
      assert t[1..|tag| + 1] == u[..|tag|] && t[|tag| + 1] == u[|tag|];
      if n < |tag| {
        assert u[..|tag|][n] == '$';
      } else {
        assert s[1..|tag| + 1] == rest[..n][..|tag|] == u[..|tag|];
        if n > |tag| {
          assert u[|tag|] == rest[..n][|tag|];
        }
      }
    }
  }

  /** Replacing the Unicode spaces of the replaced text changes nothing, wherever the scan stands. */
  lemma {:induction false} CleanTwice(mode: Mode, s: string)
    requires ModeOk(mode)
    ensures Clean(mode, Clean(mode, s)) == Clean(mode, s)
    decreases |s|, Order(mode), 1
  {
    hide SpaceLength, OpensDollarQuote, ClosesDollarQuote;
    match mode
    case Done =>
    case Regular => RegularTwice(s);
    case Quoted(quote) => QuotedTwice(quote, s);
    case Tag(tag) => TagTwice(tag, s);
    case DollarQuoted(tag) => DollarTwice(tag, s);
    case Comment => CommentTwice(s);
  }

  lemma {:induction false} RegularTwice(s: string)
    ensures Clean(Regular, Clean(Regular, s)) == Clean(Regular, s)
    decreases |s|, 0, 0
  {
    hide SpaceLength, OpensDollarQuote;
    if |s| > 2 {
      var n := SpaceLength(s);
      if n > 0 {
        CleanTwice(Regular, s[n..]);
        BlankTwice(Clean(Regular, s[n..]));
      } else {
        var next := if s[0] == '"' || s[0] == '\'' then Quoted(s[0]) else if OpensDollarQuote(s) then Tag([])
                    else if s[0] == '-' && s[1] == '-' then Comment else Regular;
        CleanTwice(next, s[1..]);
        RegularByteTwice(s, next);
      }
    }
  }

  lemma BlankTwice(u: string)
    requires Clean(Regular, u) == u
    ensures Clean(Regular, " " + u) == " " + u
  {
  }

  lemma RegularByteTwice(s: string, next: Mode)
    requires |s| > 2 && SpaceLength(s) == 0
    requires next == if s[0] == '"' || s[0] == '\'' then Quoted(s[0]) else if OpensDollarQuote(s) then Tag([])
                     else if s[0] == '-' && s[1] == '-' then Comment else Regular
    requires Clean(next, Clean(next, s[1..])) == Clean(next, s[1..])
    ensures Clean(Regular, s[..1] + Clean(next, s[1..])) == s[..1] + Clean(next, s[1..])
  {
    hide SpaceLength;
    var u := Clean(next, s[1..]);
    var t := s[..1] + u;
    assert t[1..] == u && t[..1] == s[..1];
    FirstByte(next, s[1..]);
    if |t| > 2 {
      if next == Regular {
        NoNewSpace(s);
      } else {
        AsciiIsNoSpace(t);
      }
    }
  }

  lemma AsciiIsNoSpace(t: string)
    requires |t| > 2 && t[0] < '\U{80}'
    ensures SpaceLength(t) == 0
  {
  }

  lemma {:induction false} QuotedTwice(quote: char, s: string)
    requires quote == '"' || quote == '\''
    ensures Clean(Quoted(quote), Clean(Quoted(quote), s)) == Clean(Quoted(quote), s)
    decreases |s|, 0, 0
  {
    hide SpaceLength;
    if |s| > 1 {
      if s[0] == quote == s[1] {
        CleanTwice(Quoted(quote), s[2..]);
        var u := Clean(Quoted(quote), s[2..]);
        assert (s[..2] + u)[2..] == u && (s[..2] + u)[..2] == s[..2];
      } else {
        var next := if s[0] == quote then Regular else Quoted(quote);
        CleanTwice(next, s[1..]);
        FirstByte(next, s[1..]);
        var u := Clean(next, s[1..]);
        assert (s[..1] + u)[1..] == u && (s[..1] + u)[..1] == s[..1];
      }
    }
  }

  lemma {:induction false} TagTwice(tag: string, s: string)
    requires '$' !in tag
    ensures Clean(Tag(tag), Clean(Tag(tag), s)) == Clean(Tag(tag), s)
    decreases |s|, 2, 0
  {
    hide SpaceLength, ClosesDollarQuote;
    if |s| > 2 {
      if s[0] == '$' {
        CleanTwice(DollarQuoted(tag), s);
        FirstByte(DollarQuoted(tag), s);
      } else if !IsTagByte(s[0]) {
        CleanTwice(Regular, s);
        FirstByte(Regular, s);
      } else {
        CleanTwice(Tag(tag + s[..1]), s[1..]);
        var u := Clean(Tag(tag + s[..1]), s[1..]);
        assert (s[..1] + u)[1..] == u && (s[..1] + u)[..1] == s[..1];
      }
    }
  }

  lemma {:induction false} DollarTwice(tag: string, s: string)
    requires '$' !in tag
    ensures Clean(DollarQuoted(tag), Clean(DollarQuoted(tag), s)) == Clean(DollarQuoted(tag), s)
    decreases |s|, 1, 0
  {
    hide SpaceLength, OpensDollarQuote;
    if |s| > 2 {
      var n := |tag| + 1;
      if ClosesDollarQuote(s, tag) {
        CleanTwice(Regular, s[n..]);
        FirstByte(Regular, s[n..]);
        var u := Clean(Regular, s[n..]);
        assert (s[..n] + u)[n..] == u && (s[..n] + u)[..n] == s[..n];
        assert (s[..n] + u)[1..n] == s[1..n];
      } else {
        CleanTwice(DollarQuoted(tag), s[1..]);
        NoNewMarker(tag, s);
        var u := Clean(DollarQuoted(tag), s[1..]);
        assert (s[..1] + u)[1..] == u && (s[..1] + u)[..1] == s[..1];
      }
    }
  }

  lemma {:induction false} CommentTwice(s: string)
    ensures Clean(Comment, Clean(Comment, s)) == Clean(Comment, s)
    decreases |s|, 1, 0
  {
    hide SpaceLength;
    if s != [] {
      if s[0] == '\n' || s[0] == '\r' {
        CleanTwice(Regular, s);
        FirstByte(Regular, s);
      } else {
        CleanTwice(Comment, s[1..]);
        var u := Clean(Comment, s[1..]);
        assert (s[..1] + u)[1..] == u && (s[..1] + u)[..1] == s[..1];
      }
    }
  }
}
