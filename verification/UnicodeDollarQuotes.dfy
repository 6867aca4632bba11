/**
 When the scan for Unicode spaces leaves a dollar quote where the quote ends: the exact condition on the text.
 */
module UnicodeDollarQuotes {
  import opened UnicodeSpaces
  import opened UnicodeMoves

  // ---------------------------------------------------------------- stretches of the scan

  /** The scan copies a stretch, and passes no Regular position in it but the one it may begin at. */
  ghost predicate Leads(mode: Mode, stretch: string, next: Mode, rest: string) {
    && Clean(mode, stretch + rest) == stretch + Clean(next, rest)
    && forall n: nat :: Passes(mode, stretch + rest, Regular, n)
                        <==> (mode.Regular? && n == |stretch + rest|) || Passes(next, rest, Regular, n)
  }

  lemma OneMove(mode: Mode, s: string)
    requires Next(mode, s).Go? && !(mode.Regular? && SpaceLength(s) > 0)
    ensures Leads(mode, s[..Next(mode, s).bytes], Next(mode, s).next, s[Next(mode, s).bytes..])
  {
    hide SpaceLength, OpensDollarQuote, Clean;
    MovesRewrite(mode, s);
    assert s[..Next(mode, s).bytes] + s[Next(mode, s).bytes..] == s;
  }

  lemma Onwards(mode: Mode, first: string, middle: Mode, second: string, next: Mode, rest: string)
    requires Leads(mode, first, middle, second + rest) && Leads(middle, second, next, rest) && !middle.Regular?
    ensures Leads(mode, first + second, next, rest)
  {
    hide Clean, Passes;
    assert first + second + rest == first + (second + rest);
    assert first + second + Clean(next, rest) == first + (second + Clean(next, rest));
  }

  lemma NoMove(mode: Mode, s: string)
    requires !mode.Regular?
    ensures Leads(mode, "", mode, s)
  {
    assert "" + s == s && "" + Clean(mode, s) == Clean(mode, s);
  }

  /** A tag: bytes of a tag, the first of which is not a digit. */
  predicate IsTag(t: string) {
    (forall k :: 0 <= k < |t| ==> IsTagByte(t[k])) && (t != "" ==> IsFirstTagByte(t[0]))
  }

  lemma {:induction false} ReadsTag(tag: string, u: string, rest: string)
    requires (forall k :: 0 <= k < |u| ==> IsTagByte(u[k])) && |rest| > 2
    ensures Leads(Tag(tag), u, Tag(tag + u), rest)
    decreases |u|
  {
    hide Clean, Leads, Passes;
    if u == "" {
      NoMove(Tag(tag), rest);
      assert tag + u == tag;
    } else {
      var s := u + rest;
      OneMove(Tag(tag), s);
      assert s[..1] == u[..1] && s[1..] == u[1..] + rest;
      ReadsTag(tag + u[..1], u[1..], rest);
      Onwards(Tag(tag), u[..1], Tag(tag + u[..1]), u[1..], Tag(tag + u), rest) by {
        assert tag + u[..1] + u[1..] == tag + u;
      }
      assert u[..1] + u[1..] == u;
    }
  }

  lemma {:induction false} StaysQuoted(t: string, u: string, rest: string)
    requires |rest| >= 2 && forall j :: 0 <= j < |u| ==> !ClosesDollarQuote((u + rest)[j..], t)
    ensures Leads(DollarQuoted(t), u, DollarQuoted(t), rest)
    decreases |u|
  {
    hide Clean, Leads, Passes, ClosesDollarQuote;
    if u == "" {
      NoMove(DollarQuoted(t), rest);
    } else {
      var s := u + rest;
      assert s[0..] == s;
      OneMove(DollarQuoted(t), s);
      assert s[..1] == u[..1] && s[1..] == u[1..] + rest;
      forall j | 0 <= j < |u[1..]|
        ensures !ClosesDollarQuote((u[1..] + rest)[j..], t)
      {
        assert (u[1..] + rest)[j..] == s[j + 1..];
      }
      StaysQuoted(t, u[1..], rest);
      Onwards(DollarQuoted(t), u[..1], DollarQuoted(t), u[1..], DollarQuoted(t), rest);
      assert u[..1] + u[1..] == u;
    }
  }

  // ---------------------------------------------------------------- the law

  function Marker(t: string): string { "$" + t + "$" }

  /** The text up to the first marker of the tag in it. */
  ghost predicate EndsAtMarker(t: string, body: string) {
    forall j :: 0 <= j < |body| ==> !ClosesDollarQuote((body + Marker(t))[j..], t)
  }

  function DollarQuote(t: string, body: string): string { Marker(t) + body + Marker(t) }

  /** The scan leaves the quote where it ends: before the last byte of the closing marker it looks at nothing in
      mode Regular, and it begins the rest in that mode.  A rest of at most two bytes is copied in any mode. */
  ghost predicate LeavesAtTheEnd(t: string, body: string, rest: string) {
    var text := DollarQuote(t, body) + rest;
    && (forall n: nat :: |rest| + 1 < n < |text| ==> !Passes(Regular, text, Regular, n))
    && (|rest| > 2 ==> Passes(Regular, text, Regular, |rest|))
  }

  /** The last byte of the closing marker, looked at again, opens another dollar quote. */
  predicate Reopens(rest: string) {
    |rest| > 2 && (rest[0] == '$' || IsFirstTagByte(rest[0]))
  }

  /** The end of the opening marker serves as the beginning of a closing one. */
  predicate MarkersOverlap(t: string, body: string) {
    body == t || t + "$" <= body
  }

  /** The opening marker is read as one. */
  lemma Opens(t: string, after: string)
    requires IsTag(t) && |after| >= 2
    ensures Leads(Regular, "$" + t, DollarQuoted(t), "$" + after)
  {
    hide Clean, Leads, Passes, SpaceLength;
    var s := "$" + t + "$" + after;
    Plain(s);
    OneMove(Regular, s);
    assert s[..1] == "$" && s[1..] == t + ("$" + after);
    ReadsTag("", t, "$" + after);
    assert "" + t == t;
    Onwards(Regular, "$", Tag(""), t, Tag(t), "$" + after);
    OneMove(Tag(t), "$" + after);
    assert ("$" + after)[..0] == "" && ("$" + after)[0..] == "$" + after;
    assert "" + ("$" + after) == "$" + after;
    Onwards(Regular, "$" + t, Tag(t), "", DollarQuoted(t), "$" + after);
    assert "$" + t + "" == "$" + t;
  }

  lemma OverlapCloses(t: string, body: string, rest: string)
    requires '$' !in t
    ensures ClosesDollarQuote("$" + (body + Marker(t) + rest), t) <==> MarkersOverlap(t, body)
  {
    var s := "$" + (body + Marker(t) + rest);
    assert s[1..|t| + 1] == (body + Marker(t) + rest)[..|t|];
    if |body| < |t| {
      assert s[|body| + 1] == '$';
      assert s[1..|t| + 1][|body|] == '$';
    } else {
      assert s[1..|t| + 1] == body[..|t|];
      if |body| == |t| {
        assert s[|t| + 1] == '$';
      } else {
        assert s[|t| + 1] == body[|t|];
      }
    }
  }

  lemma TagHasNoDollar(t: string)
    requires IsTag(t)
    ensures '$' !in t
  {
  }

  /** Markers that overlap lead out of the quote too early. */
  lemma LeavesEarly(t: string, body: string, rest: string)
    requires IsTag(t) && MarkersOverlap(t, body)
    ensures !LeavesAtTheEnd(t, body, rest)
  {
    hide Clean, SpaceLength, Passes;
    var text := DollarQuote(t, body) + rest;
    var after := body + Marker(t) + rest;
    assert text == "$" + t + ("$" + after);
    Opens(t, after);
    TagHasNoDollar(t);
    OverlapCloses(t, body, rest);
    OneMove(DollarQuoted(t), "$" + after);
    var left := ("$" + after)[|t| + 1..];
    assert ("$" + after)[..|t| + 1] + left == "$" + after;
    PassesAtOnce(left);
    assert |rest| + 1 < |left| < |text|;
    assert Passes(Regular, text, Regular, |left|);
  }

  lemma PassesAtOnce(s: string)
    ensures Passes(Regular, s, Regular, |s|)
  {
  }

  /** Without overlap the scan stays in the quote up to the closing marker. */
  lemma StaysToTheMarker(t: string, body: string, rest: string)
    requires IsTag(t) && EndsAtMarker(t, body) && !MarkersOverlap(t, body)
    ensures Leads(Regular, Marker(t) + body, DollarQuoted(t), Marker(t) + rest)
  {
    hide Clean, Leads, Passes, SpaceLength;
    var after := body + Marker(t) + rest;
    Opens(t, after);
    TagHasNoDollar(t);
    OverlapCloses(t, body, rest);
    var u, v := "$" + body, Marker(t) + rest;
    assert u + v == "$" + after;
    forall j | 0 <= j < |u|
      ensures !ClosesDollarQuote((u + v)[j..], t)
    {
      if j > 0 {
        var whole := (body + Marker(t))[j - 1..];
        assert (u + v)[j..] == whole + rest;
        assert |whole| >= |t| + 2;
        assert (whole + rest)[1..|t| + 1] == whole[1..|t| + 1];
      } else {
        assert (u + v)[0..] == "$" + after;
      }
    }
    StaysQuoted(t, u, v);
    Onwards(Regular, "$" + t, DollarQuoted(t), u, DollarQuoted(t), v);
    assert "$" + t + u == Marker(t) + body;
  }

  /** At the closing marker: the scan closes unless only the two bytes of an empty marker are left. */
  lemma ClosesAtMarker(t: string, rest: string)
    requires |t| + |rest| > 0
    ensures Leads(DollarQuoted(t), "$" + t, Regular, "$" + rest)
  {
    hide Clean, Leads, Passes, SpaceLength;
    var s := Marker(t) + rest;
    assert s[1..|t| + 1] == t;
    OneMove(DollarQuoted(t), s);
    assert s[..|t| + 1] == "$" + t && s[|t| + 1..] == "$" + rest;
  }

  /** Behind the marker: its last byte is plain text, unless it opens another quote. */
  lemma BehindTheMarker(rest: string)
    requires |rest| >= 2
    ensures var next := if rest[0] == '$' || IsFirstTagByte(rest[0]) then Tag("") else Regular;
            Leads(Regular, "$", next, rest)
  {
    hide Clean, Leads, Passes, SpaceLength;
    var s := "$" + rest;
    Plain(s);
    OneMove(Regular, s);
    assert s[..1] == "$" && s[1..] == rest;
  }

  /** A quote that was opened again does not begin the rest in mode Regular. */
  lemma TagIsNotRegular(rest: string)
    requires |rest| > 2 && (rest[0] == '$' || IsFirstTagByte(rest[0]))
    ensures !Passes(Tag(""), rest, Regular, |rest|)
  {
    hide SpaceLength;
    if rest[0] == '$' {
      OneMove(Tag(""), rest);
      assert rest[0..] == rest;
      var m := Next(DollarQuoted(""), rest);
      assert Passes(DollarQuoted(""), rest, Regular, |rest|) ==> Passes(m.next, rest[m.bytes..], Regular, |rest|);
      if Passes(m.next, rest[m.bytes..], Regular, |rest|) {
        PassesNoMore(m.next, rest[m.bytes..], Regular, |rest|);
      }
    } else {
      var m := Next(Tag(""), rest);
      if Passes(m.next, rest[m.bytes..], Regular, |rest|) {
        PassesNoMore(m.next, rest[m.bytes..], Regular, |rest|);
      }
    }
  }

  /** The scan leaves a dollar quote where it ends if and only if its body is not its tag, does not begin with the
      tag and a dollar sign, and the rest, if it is longer than two bytes, begins neither with a dollar sign nor
      like a tag. */
  lemma QuoteIsLeftAtItsEnd(t: string, body: string, rest: string)
    requires IsTag(t) && EndsAtMarker(t, body)
    ensures LeavesAtTheEnd(t, body, rest) <==> !MarkersOverlap(t, body) && !Reopens(rest)
  {
    hide Clean, SpaceLength, Passes, Leads, EndsAtMarker;
    if MarkersOverlap(t, body) {
      LeavesEarly(t, body, rest);
    } else {
      StaysToTheMarker(t, body, rest);
      PassesFromTheMarker(t, body, rest);
    }
  }

  lemma PassesFromTheMarker(t: string, body: string, rest: string)
    requires IsTag(t) && Leads(Regular, Marker(t) + body, DollarQuoted(t), Marker(t) + rest)
    ensures LeavesAtTheEnd(t, body, rest) <==> !Reopens(rest)
  {
    hide Clean, SpaceLength, Passes;
    var text := DollarQuote(t, body) + rest;
    assert text == Marker(t) + body + (Marker(t) + rest);
    if |t| + |rest| == 0 {
      StopsAtTwo(Marker(t) + rest, t);
    } else {
      ClosesAtMarker(t, rest);
      assert Marker(t) + rest == "$" + t + ("$" + rest);
      forall n: nat | Passes(Regular, "$" + rest, Regular, n)
        ensures n <= |rest| + 1
      {
        PassesNoMore(Regular, "$" + rest, Regular, n);
      }
      if |rest| > 2 {
        BehindTheMarker(rest);
        if Reopens(rest) {
          TagIsNotRegular(rest);
        } else {
          PassesAtOnce(rest);
        }
      }
    }
  }

  lemma StopsAtTwo(s: string, t: string)
    requires |s| == 2
    ensures forall n: nat :: !Passes(DollarQuoted(t), s, Regular, n)
  {
  }

  /** Then the quote is copied and the rest rewritten on its own. */
  lemma QuoteIsCopied(t: string, body: string, rest: string)
    requires IsTag(t) && EndsAtMarker(t, body) && LeavesAtTheEnd(t, body, rest)
    ensures Clean(Regular, DollarQuote(t, body) + rest) == DollarQuote(t, body) + Clean(Regular, rest)
  {
    hide Clean, SpaceLength, Passes, EndsAtMarker;
    QuoteIsLeftAtItsEnd(t, body, rest);
    StaysToTheMarker(t, body, rest);
    assert DollarQuote(t, body) + rest == Marker(t) + body + (Marker(t) + rest);
    if |t| + |rest| == 0 {
      ShortRestIsCopied(DollarQuoted(t), Marker(t) + rest);
    } else {
      ClosesAtMarker(t, rest);
      assert Marker(t) + rest == "$" + t + ("$" + rest);
      CopiedBehind(rest);
    }
    ShortRest(rest);
    assert DollarQuote(t, body) + Clean(Regular, rest) == Marker(t) + body + ("$" + t + ("$" + Clean(Regular, rest)));
  }

  lemma ShortRest(rest: string)
    ensures |rest| <= 2 ==> Clean(Regular, rest) == rest
  {
    if |rest| <= 2 {
      ShortRestIsCopied(Regular, rest);
    }
  }

  lemma CopiedBehind(rest: string)
    requires !Reopens(rest)
    ensures Clean(Regular, "$" + rest) == "$" + Clean(Regular, rest)
  {
    hide Clean, SpaceLength, Passes;
    ShortRest(rest);
    if |rest| >= 2 {
      BehindTheMarker(rest);
      if |rest| == 2 {
        ShortRestIsCopied(Tag(""), rest);
      }
    } else {
      ShortRestIsCopied(Regular, "$" + rest);
    }
  }

  /** The scan stands in mode Regular at the two ends of the quote, at most, before it comes to the rest. */
  lemma QuoteIsSkipped(t: string, body: string, rest: string, n: nat)
    requires IsTag(t) && EndsAtMarker(t, body) && !MarkersOverlap(t, body) && !Reopens(rest)
    requires n > 2 && Passes(Regular, DollarQuote(t, body) + rest, Regular, n)
    ensures n == |DollarQuote(t, body) + rest| || n == |rest| + 1 || (n <= |rest| && Passes(Regular, rest, Regular, n))
  {
    hide Clean, SpaceLength, Passes, EndsAtMarker;
    StaysToTheMarker(t, body, rest);
    assert DollarQuote(t, body) + rest == Marker(t) + body + (Marker(t) + rest);
    if |t| + |rest| == 0 {
      StopsAtTwo(Marker(t) + rest, t);
    } else {
      ClosesAtMarker(t, rest);
      assert Marker(t) + rest == "$" + t + ("$" + rest);
      SkippedBehind(rest, n);
    }
  }

  lemma SkippedBehind(rest: string, n: nat)
    requires !Reopens(rest) && n > 2
    ensures Passes(Regular, "$" + rest, Regular, n) ==> n == |rest| + 1 || (n <= |rest| && Passes(Regular, rest, Regular, n))
  {
    hide Clean, SpaceLength, Passes;
    if Passes(Regular, "$" + rest, Regular, n) {
      PassesNoMore(Regular, "$" + rest, Regular, n);
      if |rest| > 2 {
        BehindTheMarker(rest);
        if Passes(Regular, rest, Regular, n) {
          PassesNoMore(Regular, rest, Regular, n);
        }
      } else {
        assert n == |rest| + 1;
      }
    }
  }
}
