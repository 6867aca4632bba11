/**
 How the lexemes of a text become statements: each statement has the tokens between two statement ends, and the
 tokens behind the last one wait for theirs.
 */
module SqlStatements {
  import opened SqlLexer
  import opened SqlTokenizer

  /** The tokens are those of the words in [lo, hi), in their order. */
  ghost predicate AreTokensBetween(log: seq<Lexeme>, lo: nat, hi: nat, tokens: seq<Token>) {
    exists at: seq<nat> :: IsOrdered(at) && AreWordsIn(log, lo, hi, at) && AreTokensAt(log, at, tokens)
  }

  ghost predicate IsOrdered(at: seq<nat>) {
    forall i, j :: 0 <= i < j < |at| ==> at[i] < at[j]
  }

  ghost predicate AreWordsIn(log: seq<Lexeme>, lo: nat, hi: nat, at: seq<nat>) {
    hi <= |log| && forall k: nat :: k in at <==> lo <= k < hi && log[k].Word?
  }

  ghost predicate AreTokensAt(log: seq<Lexeme>, at: seq<nat>, tokens: seq<Token>) {
    |at| == |tokens| && forall i :: 0 <= i < |at| ==> at[i] < |log| && log[at[i]].Word? && tokens[i] == log[at[i]].token
  }

  ghost predicate AreEnds(log: seq<Lexeme>, ends: seq<nat>) {
    IsOrdered(ends) && forall k: nat :: k in ends <==> k < |log| && log[k].StatementEnd?
  }

  lemma NoTokens(log: seq<Lexeme>, n: nat)
    requires n <= |log|
    ensures AreTokensBetween(log, n, n, [])
  {
    assert AreWordsIn(log, n, n, []) && IsOrdered([]) && AreTokensAt(log, [], []);
  }

  lemma OneMoreBetween(log: seq<Lexeme>, lo: nat, tokens: seq<Token>)
    requires log != [] && lo <= |log| - 1 && AreTokensBetween(log[..|log| - 1], lo, |log| - 1, tokens)
    ensures var last := log[|log| - 1];
            AreTokensBetween(log, lo, |log|, if last.Word? then tokens + [last.token] else tokens)
  {
    hide IsOrdered, AreWordsIn;
    var n := |log| - 1;
    var at :| IsOrdered(at) && AreWordsIn(log[..n], lo, n, at) && AreTokensAt(log[..n], at, tokens);
    OneMoreWord(log, lo, at);
    if log[n].Word? {
      OneMoreToken(log, lo, at, tokens);
    } else {
      assert AreTokensAt(log, at, tokens);
    }
  }

  lemma OneMoreWord(log: seq<Lexeme>, lo: nat, at: seq<nat>)
    requires log != [] && lo <= |log| - 1 && AreWordsIn(log[..|log| - 1], lo, |log| - 1, at)
    ensures AreWordsIn(log, lo, |log|, if log[|log| - 1].Word? then at + [|log| - 1] else at)
  {
    var n := |log| - 1;
    var more := if log[n].Word? then at + [n] else at;
    forall k: nat
      ensures k in more <==> lo <= k < |log| && log[k].Word?
    {
      assert k < n ==> log[..n][k] == log[k];
    }
  }

  lemma OneMoreToken(log: seq<Lexeme>, lo: nat, at: seq<nat>, tokens: seq<Token>)
    requires log != [] && log[|log| - 1].Word? && IsOrdered(at) && AreWordsIn(log[..|log| - 1], lo, |log| - 1, at)
    requires AreTokensAt(log[..|log| - 1], at, tokens)
    ensures IsOrdered(at + [|log| - 1]) && AreTokensAt(log, at + [|log| - 1], tokens + [log[|log| - 1].token])
  {
    hide AreWordsIn;
  }

  lemma EarlierBetween(log: seq<Lexeme>, n: nat, lo: nat, hi: nat, tokens: seq<Token>)
    requires n <= |log| && AreTokensBetween(log[..n], lo, hi, tokens)
    ensures AreTokensBetween(log, lo, hi, tokens)
  {
    var at :| IsOrdered(at) && AreWordsIn(log[..n], lo, hi, at) && AreTokensAt(log[..n], at, tokens);
    assert AreWordsIn(log, lo, hi, at) && AreTokensAt(log, at, tokens);
  }

  /** Where the k-th statement begins. */
  function BeginOf(ends: seq<nat>, k: nat): nat
    requires k <= |ends|
  {
    if k == 0 then 0 else ends[k - 1] + 1
  }

  ghost predicate AreStatements(log: seq<Lexeme>, ends: seq<nat>, statements: seq<seq<Token>>) {
    |statements| == |ends|
    && forall k :: 0 <= k < |ends| ==> AreTokensBetween(log, BeginOf(ends, k), ends[k], statements[k])
  }

  /** There is one statement for every statement end, with the tokens since the one before, and also when there are none;
      behind the last statement end the tokens wait. */
  lemma {:induction false} StatementsAre(log: seq<Lexeme>) returns (ends: seq<nat>)
    ensures AreEnds(log, ends) && AreStatements(log, ends, StatementsOf(log))
    ensures AreTokensBetween(log, BeginOf(ends, |ends|), |log|, TokensOf(log))
    decreases |log|
  {
    hide AreTokensBetween, AreStatements, AreEnds, BeginOf;
    if log == [] {
      ends := [];
      NoStatements();
    } else {
      var n := |log| - 1;
      var statements, tokens := StatementsOf(log[..n]), TokensOf(log[..n]);
      var before := StatementsAre(log[..n]);
      EndsAreInside(log, n, before);
      EarlierStatements(log, n, before, statements);
      if log[n].StatementEnd? {
        ends := before + [n];
        EarlierBetween(log, n, BeginOf(before, |before|), n, tokens);
        OneMoreStatement(log, before, n, statements, tokens);
        NoTokens(log, n + 1);
      } else {
        ends := before;
        OneMoreBetween(log, BeginOf(before, |before|), tokens);
      }
    }
  }

  lemma NoStatements()
    ensures AreEnds([], []) && AreStatements([], [], []) && AreTokensBetween([], BeginOf([], 0), 0, [])
  {
    NoTokens([], 0);
  }

  lemma EarlierStatements(log: seq<Lexeme>, n: nat, ends: seq<nat>, statements: seq<seq<Token>>)
    requires n <= |log| && AreStatements(log[..n], ends, statements)
    ensures AreStatements(log, ends, statements)
  {
    hide AreTokensBetween;
    forall k | 0 <= k < |ends|
      ensures AreTokensBetween(log, BeginOf(ends, k), ends[k], statements[k])
    {
      EarlierBetween(log, n, BeginOf(ends, k), ends[k], statements[k]);
    }
  }

  lemma OneMoreStatement(log: seq<Lexeme>, ends: seq<nat>, n: nat, statements: seq<seq<Token>>, tokens: seq<Token>)
    requires AreStatements(log, ends, statements) && AreTokensBetween(log, BeginOf(ends, |ends|), n, tokens)
    ensures AreStatements(log, ends + [n], statements + [tokens])
    ensures BeginOf(ends + [n], |ends| + 1) == n + 1
  {
    hide AreTokensBetween;
    assert forall k :: 0 <= k <= |ends| ==> BeginOf(ends + [n], k) == BeginOf(ends, k);
  }

  lemma EndsAreInside(log: seq<Lexeme>, n: nat, ends: seq<nat>)
    requires n < |log| && AreEnds(log[..n], ends)
    ensures forall k :: 0 <= k < |ends| ==> ends[k] < n
    ensures BeginOf(ends, |ends|) <= n
    ensures n == |log| - 1 ==> AreEnds(log, if log[n].StatementEnd? then ends + [n] else ends)
  {
    forall k | 0 <= k < |ends|
      ensures ends[k] < n
    {
      assert ends[k] in ends;
    }
  }
}
