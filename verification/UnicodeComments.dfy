/**
 The scan for Unicode spaces knows no block comments: the mode in which it comes out of one, told from the
 comment alone.
 */
module UnicodeComments {
  import opened UnicodeSpaces
  import opened UnicodeMoves

  /** The mode in which the scan leaves a stretch that it comes to in the given mode; what follows the stretch
      stands for itself as spaces. */
  function ModeBehind(mode: Mode, stretch: string): Mode
    decreases |stretch|, Order(mode)
  {
    if stretch == "" then mode
    else
      match Next(mode, stretch + "   ")
      case GiveUp => Done
      case Go(next, bytes) => if bytes > |stretch| then Done else ModeBehind(next, stretch[bytes..])
  }

  /** The end of a block comment. */
  predicate EndsComment(s: string) {
    s != "" && s[|s| - 1] == '/' && (|s| > 1 ==> s[|s| - 2] == '*')
  }

  /** The modes the scan can be in: tags have bytes of tags, quotes are quotation marks. */
  predicate IsMode(mode: Mode) {
    && !mode.Done?
    && (mode.Tag? || mode.DollarQuoted? ==> forall k :: 0 <= k < |mode.tag| ==> IsTagByte(mode.tag[k]))
    && (mode.Quoted? ==> mode.quote == '"' || mode.quote == '\'')
  }

  lemma SpaceInside(c: string, a: string)
    requires EndsComment(c) && |c + a| > 2
    ensures SpaceLength(c + a) <= |c| && (|c| < 3 ==> SpaceLength(c + a) == 0)
  {
    assert |c| == 1 ==> (c + a)[0] == '/';
    assert |c| == 2 ==> (c + a)[0] == '*';
  }

  lemma SameSpace(c: string, a: string, b: string)
    requires EndsComment(c) && |a| > 2 && |b| > 2
    ensures SpaceLength(c + a) == SpaceLength(c + b) && SpaceLength(c + a) <= |c|
  {
    SpaceInside(c, a);
    SpaceInside(c, b);
    assert forall k :: 0 <= k < |c| ==> (c + a)[k] == (c + b)[k];
  }

  lemma SameClose(c: string, a: string, b: string, tag: string)
    requires EndsComment(c) && |a| > 2 && |b| > 2 && forall k :: 0 <= k < |tag| ==> IsTagByte(tag[k])
    ensures ClosesDollarQuote(c + a, tag) <==> ClosesDollarQuote(c + b, tag)
    ensures ClosesDollarQuote(c + a, tag) ==> |tag| + 1 < |c|
  {
    CloseInside(c, a, tag);
    CloseInside(c, b, tag);
  }

  lemma CloseInside(c: string, a: string, tag: string)
    requires EndsComment(c) && forall k :: 0 <= k < |tag| ==> IsTagByte(tag[k])
    ensures ClosesDollarQuote(c + a, tag) <==> |tag| + 1 < |c| && ClosesDollarQuote(c, tag)
  {
    var s := c + a;
    if |tag| + 1 < |c| {
      assert s[1..|tag| + 1] == c[1..|tag| + 1];
    } else if |c| >= 3 && |s| >= |tag| + 2 {
      assert s[1..|tag| + 1][|c| - 3] == s[|c| - 2] == '*';
    }
  }

  /** A move inside a comment does not depend on what follows it. */
  lemma MoveInside(mode: Mode, c: string, a: string, b: string)
    requires IsMode(mode) && EndsComment(c) && |a| > 2 && |b| > 2
    ensures var m := Next(mode, c + a);
            && m.Go? && m == Next(mode, c + b) && m.bytes <= |c| && IsMode(m.next)
            && (m.bytes == |c| ==> !m.next.Tag?)
  {
    hide SpaceLength, ClosesDollarQuote;
    SameSpace(c, a, b);
    if mode.DollarQuoted? {
      SameClose(c, a, b, mode.tag);
    }
    assert forall k :: 0 <= k < |c| ==> (c + a)[k] == c[k] && (c + b)[k] == c[k];
    assert (c + a)[..1] == c[..1] == (c + b)[..1];
  }

  /** Whatever follows a comment, the scan comes out of it in that mode. */
  lemma {:induction false} ComesOut(mode: Mode, c: string, rest: string)
    requires IsMode(mode) && |rest| > 2 && (c == "" || EndsComment(c))
    ensures Passes(mode, c + rest, ModeBehind(mode, c), |rest|)
    decreases |c|, Order(mode)
  {
    hide Next, IsMode;
    if c == "" {
      assert c + rest == rest;
    } else {
      MoveInside(mode, c, rest, "   ");
      var next, bytes := Next(mode, c + rest).next, Next(mode, c + rest).bytes;
      assert (c + rest)[bytes..] == c[bytes..] + rest;
      ComesOut(next, c[bytes..], rest);
    }
  }

  /** That mode is neither the end of the scan nor inside a tag. */
  lemma {:induction false} OutInMode(mode: Mode, c: string)
    requires IsMode(mode) && EndsComment(c)
    ensures IsMode(ModeBehind(mode, c)) && !ModeBehind(mode, c).Tag?
    decreases |c|, Order(mode)
  {
    hide Next, IsMode;
    MoveInside(mode, c, "   ", "   ");
    var next, bytes := Next(mode, c + "   ").next, Next(mode, c + "   ").bytes;
    if bytes < |c| {
      OutInMode(next, c[bytes..]);
    }
  }
}
