/**
 Replacing Unicode spaces outside of quotes, dollar quotes and comments by plain ones: the rewriting in one
 pass over the text, and the text with recorded spans replaced.  Text is a string of UTF-8 bytes.
 */
module UnicodeSpaces {

  predicate IsFirstTagByte(c: char) {
    'A' <= c <= 'Z' || 'a' <= c <= 'z' || c == '_' || c >= '\U{80}'
  }

  predicate IsTagByte(c: char) {
    IsFirstTagByte(c) || '0' <= c <= '9'
  }

  /** The length of the Unicode space that the text starts with; 0 if there is none. */
  function SpaceLength(s: string): (n: nat)
    requires |s| > 2
    ensures n in {0, 2, 3}
  {
    if s[0] == '\U{C2}' then if s[1] == '\U{A0}' then 2 else 0
    else if s[0] == '\U{E2}' then
      if s[1] == '\U{80}' then if '\U{80}' <= s[2] <= '\U{8B}' || s[2] == '\U{AF}' then 3 else 0
      else if s[1] == '\U{81}' then if s[2] == '\U{9F}' || s[2] == '\U{A0}' then 3 else 0
      else 0
    else if s[0] == '\U{E3}' then if s[1] == '\U{80}' && s[2] == '\U{80}' then 3 else 0
    else if s[0] == '\U{EF}' then if s[1] == '\U{BB}' && s[2] == '\U{BF}' then 3 else 0
    else 0
  }

  predicate OpensDollarQuote(s: string)
    requires |s| > 2
  {
    s[0] == '$' && (s[1] == '$' || IsFirstTagByte(s[1]))
  }

  /** The text starts with the closing marker of the tag. */
  predicate ClosesDollarQuote(s: string, tag: string) {
    |s| >= |tag| + 2 && s[0] == '$' && s[|tag| + 1] == '$' && s[1..|tag| + 1] == tag
  }

  /** Where in the text the scan stands. */
  datatype Mode = Regular | Quoted(quote: char) | Tag(tag: string) | DollarQuoted(tag: string) | Comment | Done

  function Order(mode: Mode): nat {
    if mode.Tag? then 2 else if mode.DollarQuoted? || mode.Comment? then 1 else 0
  }

  /** The rest of a text, rewritten in one pass.  The scan gives up where too few bytes are left; the marker
      that closes a dollar quote may share the last byte of the marker that opened it, and its own last byte is
      looked at again. */
  function Clean(mode: Mode, s: string): string
    decreases |s|, Order(mode)
  {
    match mode
    case Done => s
    case Regular =>
      if |s| <= 2 then s
      else if SpaceLength(s) > 0 then " " + Clean(Regular, s[SpaceLength(s)..])
      else if s[0] == '"' || s[0] == '\'' then s[..1] + Clean(Quoted(s[0]), s[1..])
      else if OpensDollarQuote(s) then s[..1] + Clean(Tag([]), s[1..])
      else if s[0] == '-' && s[1] == '-' then s[..1] + Clean(Comment, s[1..])
      else s[..1] + Clean(Regular, s[1..])
    case Quoted(quote) =>
      if |s| <= 1 then s
      else if s[0] != quote then s[..1] + Clean(mode, s[1..])
      else if s[1] == quote then s[..2] + Clean(mode, s[2..])
      else s[..1] + Clean(Regular, s[1..])
    case Tag(tag) =>
      if |s| <= 2 then s
      else if s[0] == '$' then Clean(DollarQuoted(tag), s)
      else if !IsTagByte(s[0]) then Clean(Regular, s)
      else s[..1] + Clean(Tag(tag + s[..1]), s[1..])
    case DollarQuoted(tag) =>
      if |s| <= 2 then s
      else if ClosesDollarQuote(s, tag) then s[..|tag| + 1] + Clean(Regular, s[|tag| + 1..])
      else s[..1] + Clean(mode, s[1..])
    case Comment =>
      if |s| == 0 then s
      else if s[0] == '\n' || s[0] == '\r' then Clean(Regular, s)
      else s[..1] + Clean(mode, s[1..])
  }

  // ---------------------------------------------------------------- spans

  datatype UnicodeSpace = UnicodeSpace(pos: nat, bytes: nat)

  function End(u: UnicodeSpace): nat { u.pos + u.bytes }

  /** The span is a Unicode space in the text. */
  predicate IsSpaceAt(query: string, u: UnicodeSpace) {
    u.pos + 2 < |query| && u.bytes > 0 && u.bytes == SpaceLength(query[u.pos..])
  }

  /** The spans are Unicode spaces, one after the other without overlap, up to `to`. */
  ghost predicate AreSpans(query: string, spaces: seq<UnicodeSpace>, to: nat) {
    && to <= |query|
    && (forall k :: 0 <= k < |spaces| ==> IsSpaceAt(query, spaces[k]) && End(spaces[k]) <= to)
    && (forall j, k :: 0 <= j < k < |spaces| ==> End(spaces[j]) <= spaces[k].pos)
  }

  /** The text up to `to` with every span replaced by one space. */
  function Rewritten(query: string, spaces: seq<UnicodeSpace>, to: nat): string
    requires to <= |query|
  {
    if spaces == [] then query[..to]
    else
      var last := spaces[|spaces| - 1];
      if last.pos <= |query| && End(last) <= to
      then Rewritten(query, spaces[..|spaces| - 1], last.pos) + " " + query[End(last)..to]
      else query[..to]
  }

  function Saved(spaces: seq<UnicodeSpace>): int {
    if spaces == [] then 0 else Saved(spaces[..|spaces| - 1]) + spaces[|spaces| - 1].bytes - 1
  }

  /** A span of n bytes makes the text n - 1 bytes shorter. */
  lemma {:induction false} RewrittenLength(query: string, spaces: seq<UnicodeSpace>, to: nat)
    requires AreSpans(query, spaces, to)
    ensures |Rewritten(query, spaces, to)| == to - Saved(spaces)
  {
    if spaces != [] {
      RewrittenLength(query, spaces[..|spaces| - 1], spaces[|spaces| - 1].pos);
    }
  }

  /** Bytes after the last span are copied. */
  lemma RewrittenFurther(query: string, spaces: seq<UnicodeSpace>, to: nat, further: nat)
    requires AreSpans(query, spaces, to) && to <= further <= |query|
    ensures Rewritten(query, spaces, further) == Rewritten(query, spaces, to) + query[to..further]
  {
    if spaces != [] {
      var end := End(spaces[|spaces| - 1]);
      assert query[end..further] == query[end..to] + query[to..further];
    }
  }

  /** The last span splits the rewritten text. */
  lemma LastSpan(query: string, spaces: seq<UnicodeSpace>, to: nat) returns (before: string)
    requires AreSpans(query, spaces, to) && spaces != []
    ensures var last, others := spaces[|spaces| - 1], spaces[..|spaces| - 1];
            && last.pos < End(last) <= to && AreSpans(query, others, last.pos)
            && before == Rewritten(query, others, last.pos) && |before| == last.pos - Saved(others)
            && Rewritten(query, spaces, to) == before + " " + query[End(last)..to]
            && Saved(spaces) == Saved(others) + last.bytes - 1
  {
    hide SpaceLength;
    var last := spaces[|spaces| - 1];
    before := Rewritten(query, spaces[..|spaces| - 1], last.pos);
    RewrittenLength(query, spaces[..|spaces| - 1], last.pos);
  }

  /** A byte outside every span stays, as many places further left as the spans before it saved. */
  lemma {:induction false} OtherBytesStay(query: string, spaces: seq<UnicodeSpace>, to: nat, n: nat, at: nat)
    requires AreSpans(query, spaces, to) && n <= |spaces| && at < to
    requires n > 0 ==> End(spaces[n - 1]) <= at
    requires n < |spaces| ==> at < spaces[n].pos
    ensures var place := at - Saved(spaces[..n]);
            0 <= place < |Rewritten(query, spaces, to)| && Rewritten(query, spaces, to)[place] == query[at]
    decreases |spaces|
  {
    hide AreSpans, Rewritten, Saved;
    Within(query, spaces, to);
    if spaces == [] {
      NoSpans(query, to);
      assert spaces[..n] == [];
    } else {
      var before := LastSpan(query, spaces, to);
      var last, others := spaces[|spaces| - 1], spaces[..|spaces| - 1];
      if n == |spaces| {
        assert spaces[..n] == spaces;
      } else {
        Ordered(query, spaces, to, n);
        OtherBytesStay(query, others, last.pos, n, at);
        assert others[..n] == spaces[..n];
      }
    }
  }

  lemma Within(query: string, spaces: seq<UnicodeSpace>, to: nat)
    requires AreSpans(query, spaces, to)
    ensures to <= |query|
  {
  }

  lemma NoSpans(query: string, to: nat)
    requires to <= |query|
    ensures Rewritten(query, [], to) == query[..to] && Saved([]) == 0 && AreSpans(query, [], to)
  {
  }

  lemma Ordered(query: string, spaces: seq<UnicodeSpace>, to: nat, n: nat)
    requires AreSpans(query, spaces, to) && n < |spaces|
    ensures spaces[n].pos <= spaces[|spaces| - 1].pos < |query|
    ensures n < |spaces| - 1 ==> End(spaces[n]) <= spaces[|spaces| - 1].pos
  {
    hide SpaceLength;
  }

  /** Every span became one space. */
  lemma {:induction false} SpansBecomeSpaces(query: string, spaces: seq<UnicodeSpace>, to: nat, n: nat)
    requires AreSpans(query, spaces, to) && n < |spaces|
    ensures var place := spaces[n].pos - Saved(spaces[..n]);
            0 <= place < |Rewritten(query, spaces, to)| && Rewritten(query, spaces, to)[place] == ' '
    decreases |spaces|
  {
    hide AreSpans, Rewritten, Saved;
    var before := LastSpan(query, spaces, to);
    var last, others := spaces[|spaces| - 1], spaces[..|spaces| - 1];
    if n < |spaces| - 1 {
      SpansBecomeSpaces(query, others, last.pos, n);
      assert others[..n] == spaces[..n];
    }
  }

  // ---------------------------------------------------------------- a marker that overlaps

  lemma Regularly(s: string)
    requires |s| > 2 && s[0] != '"' && s[0] != '\'' && s[0] != '-' && SpaceLength(s) == 0 && !OpensDollarQuote(s)
    ensures Clean(Regular, s) == s[..1] + Clean(Regular, s[1..])
  {
  }

  /** The text $a$a$ ... $a$ is one dollar quote, with a$ ... as its body.  The scan takes the second dollar sign
      for the beginning of the closing marker as well, and replaces the Unicode space in the body. */
  lemma OverlappingMarker()
    ensures var rest := " \U{C2}\U{A0} $a$";
            Clean(Regular, "$a$a$" + rest) == "$a$a$  " + Clean(Regular, " $a$")
  {
    hide SpaceLength, Clean;
    var rest := " \U{C2}\U{A0} $a$";
    var s := "$a$a$" + rest;
    Plain(s);
    Opening(s);
    TagByte("", s[1..]);
    assert "" + s[1..][..1] == "a" && s[1..][1..] == s[2..];
    Closing("a", s[2..]);
    assert s[2..][..2] == "$a" && s[2..][2..] == "$" + rest;
    Plain("$" + rest);
    Regularly("$" + rest);
    assert ("$" + rest)[1..] == rest;
    Plain(rest);
    Regularly(rest);
    NoBreakSpace(rest[1..]);
    assert rest[1..][2..] == " $a$";
  }

  lemma Opening(s: string)
    requires |s| > 2 && SpaceLength(s) == 0 && OpensDollarQuote(s)
    ensures Clean(Regular, s) == "$" + Clean(Tag([]), s[1..])
  {
  }

  lemma TagByte(tag: string, s: string)
    requires |s| > 2 && s[0] != '$' && IsTagByte(s[0])
    ensures Clean(Tag(tag), s) == s[..1] + Clean(Tag(tag + s[..1]), s[1..])
  {
  }

  lemma Closing(tag: string, s: string)
    requires |s| > 2 && ClosesDollarQuote(s, tag)
    ensures Clean(Tag(tag), s) == s[..|tag| + 1] + Clean(Regular, s[|tag| + 1..])
  {
  }

  lemma Plain(s: string)
    requires |s| > 2 && s[0] < '\U{80}'
    ensures SpaceLength(s) == 0
  {
  }

  lemma NoBreakSpace(s: string)
    requires |s| > 2 && s[0] == '\U{C2}' && s[1] == '\U{A0}'
    ensures Clean(Regular, s) == " " + Clean(Regular, s[2..])
  {
  }
}
