/**
 The scan for Unicode spaces followed move by move: where it stands, and which spaces it finds.
 */
module UnicodeMoves {
  import opened UnicodeSpaces

  // ---------------------------------------------------------------- the moves of the scan

  datatype Move = GiveUp | Go(next: Mode, bytes: nat)

  /** The next move: the mode that follows and the number of bytes dealt with. */
  function Next(mode: Mode, s: string): (m: Move)
    ensures m.Go? ==> m.bytes <= |s| && (m.bytes > 0 || Order(m.next) < Order(mode))
  {
    match mode
    case Done => GiveUp
    case Regular =>
      if |s| <= 2 then GiveUp
      else if SpaceLength(s) > 0 then Go(Regular, SpaceLength(s))
      else if s[0] == '"' || s[0] == '\'' then Go(Quoted(s[0]), 1)
      else if OpensDollarQuote(s) then Go(Tag([]), 1)
      else if s[0] == '-' && s[1] == '-' then Go(Comment, 1)
      else Go(Regular, 1)
    case Quoted(quote) =>
      if |s| <= 1 then GiveUp
      else if s[0] != quote then Go(mode, 1)
      else if s[1] == quote then Go(mode, 2)
      else Go(Regular, 1)
    case Tag(tag) =>
      if |s| <= 2 then GiveUp
      else if s[0] == '$' then Go(DollarQuoted(tag), 0)
      else if !IsTagByte(s[0]) then Go(Regular, 0)
      else Go(Tag(tag + s[..1]), 1)
    case DollarQuoted(tag) =>
      if |s| <= 2 then GiveUp
      else if ClosesDollarQuote(s, tag) then Go(Regular, |tag| + 1)
      else Go(mode, 1)
    case Comment =>
      if |s| == 0 then GiveUp
      else if s[0] == '\n' || s[0] == '\r' then Go(Regular, 0)
      else Go(mode, 1)
  }

  /** The moves are those of the rewriting: a Unicode space becomes a space, other bytes are copied, and where
      the scan gives up so is the rest. */
  lemma MovesRewrite(mode: Mode, s: string)
    ensures Next(mode, s).GiveUp? ==> Clean(mode, s) == s
    ensures Next(mode, s).Go? ==>
              var copy := if mode.Regular? && SpaceLength(s) > 0 then " " else s[..Next(mode, s).bytes];
              Clean(mode, s) == copy + Clean(Next(mode, s).next, s[Next(mode, s).bytes..])
  {
    hide SpaceLength, OpensDollarQuote;
  }

  /** The scan comes to stand in `at` with `left` bytes left. */
  predicate Passes(mode: Mode, s: string, at: Mode, left: nat)
    decreases |s|, Order(mode)
  {
    || (mode == at && |s| == left)
    || (Next(mode, s).Go? && Passes(Next(mode, s).next, s[Next(mode, s).bytes..], at, left))
  }

  /** A rest of at most two bytes is copied whatever the mode, so there its mode does not matter. */
  lemma ShortRestIsCopied(mode: Mode, s: string)
    requires |s| <= 2
    ensures Clean(mode, s) == s
    decreases |s|, Order(mode)
  {
    match Next(mode, s)
    case GiveUp =>
    case Go(next, bytes) =>
      MovesRewrite(mode, s);
      ShortRestIsCopied(next, s[bytes..]);
  }

  // ---------------------------------------------------------------- the spaces that are found

  /** The Unicode spaces the scan meets, in a text that begins at byte `at`. */
  function Found(mode: Mode, s: string, at: nat): seq<UnicodeSpace>
    decreases |s|, Order(mode)
  {
    match Next(mode, s)
    case GiveUp => []
    case Go(next, bytes) =>
      (if mode.Regular? && SpaceLength(s) > 0 then [UnicodeSpace(at, bytes)] else []) + Found(next, s[bytes..], at + bytes)
  }

  lemma MovesFind(mode: Mode, s: string, at: nat)
    ensures Next(mode, s).GiveUp? ==> Found(mode, s, at) == []
    ensures Next(mode, s).Go? && !(mode.Regular? && SpaceLength(s) > 0) ==>
              Found(mode, s, at) == Found(Next(mode, s).next, s[Next(mode, s).bytes..], at + Next(mode, s).bytes)
    ensures mode.Regular? && |s| > 2 && SpaceLength(s) > 0 ==>
              Found(mode, s, at)
              == [UnicodeSpace(at, SpaceLength(s))] + Found(Regular, s[SpaceLength(s)..], at + SpaceLength(s))
  {
    hide SpaceLength, OpensDollarQuote;
  }

  /** The scan comes to byte `k` of the text in mode Regular, with more than two bytes left, and a Unicode space
      begins there. */
  predicate StandsAtSpace(mode: Mode, s: string, k: nat) {
    k + 2 < |s| && Passes(mode, s, Regular, |s| - k) && SpaceLength(s[k..]) > 0
  }

  lemma {:induction false} PassesNoMore(mode: Mode, s: string, at: Mode, n: nat)
    requires Passes(mode, s, at, n)
    ensures n <= |s|
    decreases |s|, Order(mode)
  {
    hide SpaceLength;
    if !(mode == at && |s| == n) {
      PassesNoMore(Next(mode, s).next, s[Next(mode, s).bytes..], at, n);
    }
  }

  ghost predicate IsFound(mode: Mode, s: string, at: nat, u: UnicodeSpace) {
    at <= u.pos && StandsAtSpace(mode, s, u.pos - at) && u.bytes == SpaceLength(s[u.pos - at..])
  }

  /** Once the scan stood somewhere, where it comes to later depends only on the rest from there. */
  lemma {:induction false} PassesThrough(mode: Mode, s: string, at: Mode, m: nat, later: Mode, n: nat)
    requires Passes(mode, s, at, m) && n < m
    ensures m <= |s| && (Passes(mode, s, later, n) <==> Passes(at, s[|s| - m..], later, n))
    decreases |s|, Order(mode)
  {
    hide Next;
    PassesNoMore(mode, s, at, m);
    if mode == at && |s| == m {
      assert s[0..] == s;
    } else {
      var next, bytes := Next(mode, s).next, Next(mode, s).bytes;
      PassesThrough(next, s[bytes..], at, m, later, n);
      assert s[bytes..][|s[bytes..]| - m..] == s[|s| - m..];
    }
  }

  /** What is found are exactly the Unicode spaces at which the scan stands with more than two bytes left. */
  lemma {:induction false} FoundExactly(mode: Mode, s: string, at: nat, u: UnicodeSpace)
    ensures u in Found(mode, s, at) <==> IsFound(mode, s, at, u)
    decreases |s|, Order(mode)
  {
    hide SpaceLength, Found, IsFound, Next;
    MovesFind(mode, s, at);
    match Next(mode, s)
    case GiveUp => GivingUp(mode, s, at, u);
    case Go(next, bytes) =>
      FoundExactly(next, s[bytes..], at + bytes, u);
      MoveFinds(mode, s, at, u);
  }

  lemma GivingUp(mode: Mode, s: string, at: nat, u: UnicodeSpace)
    requires Next(mode, s).GiveUp?
    ensures !IsFound(mode, s, at, u)
  {
    hide SpaceLength, OpensDollarQuote;
  }

  predicate FindsAtOnce(mode: Mode, s: string, at: nat, u: UnicodeSpace) {
    mode.Regular? && |s| > 2 && SpaceLength(s) > 0 && u == UnicodeSpace(at, SpaceLength(s))
  }

  lemma MovePasses(mode: Mode, s: string, n: nat)
    requires Next(mode, s).Go?
    ensures var bytes, next := Next(mode, s).bytes, Next(mode, s).next;
            && (Passes(mode, s, Regular, n) <==> (mode.Regular? && |s| == n) || Passes(next, s[bytes..], Regular, n))
            && (Passes(next, s[bytes..], Regular, n) ==> n <= |s| - bytes)
  {
    hide Next;
    if Passes(Next(mode, s).next, s[Next(mode, s).bytes..], Regular, n) {
      PassesNoMore(Next(mode, s).next, s[Next(mode, s).bytes..], Regular, n);
    }
  }

  lemma MoveFinds(mode: Mode, s: string, at: nat, u: UnicodeSpace)
    requires Next(mode, s).Go?
    ensures var bytes, next := Next(mode, s).bytes, Next(mode, s).next;
            && (IsFound(mode, s, at, u) <==> FindsAtOnce(mode, s, at, u) || IsFound(next, s[bytes..], at + bytes, u))
            && (mode.Regular? && |s| > 2 && SpaceLength(s) > 0 ==> next == Regular && bytes == SpaceLength(s))
            && (mode.Regular? ==> |s| > 2)
  {
    hide SpaceLength, Passes, Next;
    var bytes, k := Next(mode, s).bytes, u.pos - at;
    RegularMove(mode, s);
    assert s[0..] == s;
    if 0 <= k <= |s| {
      MovePasses(mode, s, |s| - k);
      if bytes <= k {
        assert s[bytes..][k - bytes..] == s[k..];
      }
    }
  }

  lemma RegularMove(mode: Mode, s: string)
    requires Next(mode, s).Go?
    ensures mode.Regular? ==> |s| > 2 && Next(mode, s).bytes > 0
    ensures mode.Regular? && SpaceLength(s) > 0 ==> Next(mode, s) == Go(Regular, SpaceLength(s))
  {
    hide SpaceLength, OpensDollarQuote;
  }

  /** A Unicode space begins the text, which may be all there is. */
  predicate BeginsSpace(s: string) {
    if |s| > 2 then SpaceLength(s) > 0 else |s| == 2 && s[0] == '\U{C2}' && s[1] == '\U{A0}'
  }

  /** Where the scan stands at a Unicode space it is found, unless its two bytes are the last of the text. */
  lemma SpaceIsFoundExactly(query: string, k: nat)
    requires k <= |query| && Passes(Regular, query, Regular, |query| - k) && BeginsSpace(query[k..])
    ensures (exists u :: u in Found(Regular, query, 0) && u.pos == k) <==> |query| - k > 2
  {
    hide Found, Passes, SpaceLength;
    forall u: UnicodeSpace | u.pos == k
      ensures u in Found(Regular, query, 0) ==> |query| - k > 2
    {
      FoundExactly(Regular, query, 0, u);
    }
    if |query| - k > 2 {
      var u := UnicodeSpace(k, SpaceLength(query[k..]));
      FoundExactly(Regular, query, 0, u);
      assert u in Found(Regular, query, 0);
    }
  }

  /** For example, the space at the end of this text stays. */
  lemma LastSpaceStays()
    ensures var query := "a\U{C2}\U{A0}";
            Passes(Regular, query, Regular, 2) && BeginsSpace(query[1..]) && Clean(Regular, query) == query
  {
    var query := "a\U{C2}\U{A0}";
    assert Next(Regular, query) == Go(Regular, 1);
    assert Passes(Regular, query[1..], Regular, 2);
    assert query[..1] + query[1..] == query;
  }
}
