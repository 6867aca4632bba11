/**
 The texts of path steps, written out: which characters stand for a step, and the proof that the reader reads
 exactly these.
 */
module JsonPathTexts {
  import opened Options
  import opened JsonPathReader
  import opened JsonPathPrinter
  import opened Texts

  /** What stands between quotes for a key: a backslash may stand before a quote or a backslash, which must have one,
      and before any other character, when it belongs to the key. */
  predicate Spells(body: string, key: string) {
    if body == "" then key == ""
    else if body[0] == '"' then false
    else if body[0] != '\\' then key != "" && key[0] == body[0] && Spells(body[1..], key[1..])
    else if |body| == 1 then false
    else if body[1] == '"' || body[1] == '\\' then key != "" && key[0] == body[1] && Spells(body[2..], key[1..])
    else |key| >= 2 && key[0] == '\\' && key[1] == body[1] && Spells(body[2..], key[2..])
  }

  ghost predicate IsQuotedKey(path: string, j: nat, next: nat, key: string) {
    && j + 2 < next <= |path| && path[j] == '"' && path[next - 1] == '"' && Spells(path[j + 1..next - 1], key)
  }

  /** A key without quotes goes on up to the next dot or bracket. */
  ghost predicate IsBareKey(path: string, j: nat, next: nat, key: string) {
    && j < next <= |path| && path[j..next] == key && path[j] != '*' && path[j] != '"'
    && (forall k :: j <= k < next ==> path[k] != '.' && path[k] != '[')
    && (next == |path| || path[next] == '.' || path[next] == '[')
  }

  /** Up to 19 digits and a bracket; behind 19 digits any character stands for the bracket. */
  ghost predicate IsNumberText(path: string, j: nat, next: nat, n: nat) {
    && j + 1 < next <= |path| && next - 1 - j <= 19 && JsonPathPrinter.AllDigits(path[j..next - 1]) && n == ValueOf(path[j..next - 1], 0)
    && (path[next - 1] == ']' || next - 1 - j == 19)
  }

  /** The text from `i` up to `next` is this step. */
  ghost predicate IsStepText(path: string, i: nat, next: nat, step: Step) {
    match step
    case AnyKey =>
      || (Has(path, i, ".*") && next == i + 2 && !(next < |path| && path[next] == '*'))
      || (Has(path, i, ".") && IsQuotedKey(path, i + 1, next, "*"))
    case Descend =>
      || ((Has(path, i, ".**") || Has(path, i, "..*")) && next == i + 3)
      || (Has(path, i, "..[") && next == i + 2)
      || (Has(path, i, "..") && IsQuotedKey(path, i + 2, next, "*"))
    case Key(key) =>
      Has(path, i, ".") && (IsBareKey(path, i + 1, next, key) || (key != "*" && IsQuotedKey(path, i + 1, next, key)))
    case DescendKey(key) =>
      Has(path, i, "..") && (IsBareKey(path, i + 2, next, key) || (key != "*" && IsQuotedKey(path, i + 2, next, key)))
    case AnyIndex => Has(path, i, "[*]") && next == i + 3
    case Index(n) =>
      || (Has(path, i, "[#]") && next == i + 3 && n == 4_294_967_295)
      || (Has(path, i, "[") && IsNumberText(path, i + 1, next, n))
    case BackIndex(n) =>
      || (Has(path, i, "[-") && IsNumberText(path, i + 2, next, n))
      || (Has(path, i, "[#-") && IsNumberText(path, i + 3, next, n))
  }

  /** The text from `i` to the end is made up of these steps. */
  ghost predicate IsPathText(path: string, i: nat, steps: seq<Step>)
    decreases |steps|
  {
    if steps == [] then i == |path|
    else exists next :: i < next <= |path| && IsStepText(path, i, next, steps[0]) && IsPathText(path, next, steps[1..])
  }

  // ---------------------------------------------------------------- keys

  lemma {:induction false} QuotedExactly(path: string, i: nat, key: string, end: nat)
    requires i <= |path|
    ensures QuotedKey(path, i) == Some((key, end)) <==> i <= end < |path| && path[end] == '"' && Spells(path[i..end], key)
    decreases |path| - i
  {
    if i == |path| {
    } else if path[i] == '"' {
      QuoteEnds(path, i, key, end);
    } else if path[i] != '\\' {
      hide Spells, QuotedKey;
      if key != "" {
        QuotedExactly(path, i + 1, key[1..], end);
      }
      QuotedStep(path, i, 1, [path[i]], key, end);
    } else if i + 1 < |path| {
      hide Spells, QuotedKey;
      var c := Unescaped(path[i + 1]);
      if |key| >= |c| {
        QuotedExactly(path, i + 2, key[|c|..], end);
      }
      QuotedStep(path, i, 2, c, key, end);
    } else {
      assert i < end ==> end >= |path|;
    }
  }

  lemma QuoteEnds(path: string, i: nat, key: string, end: nat)
    requires i < |path| && path[i] == '"'
    ensures QuotedKey(path, i) == Some((key, end)) <==> i <= end < |path| && path[end] == '"' && Spells(path[i..end], key)
  {
    assert path[i..i] == "";
    if i < end < |path| {
      assert path[i..end][0] == '"';
    }
  }

  /** One character, or one behind a backslash, and the rest of the key. */
  lemma QuotedStep(path: string, i: nat, n: nat, c: string, key: string, end: nat)
    requires 0 < n && i + n <= |path| && path[i] != '"'
    requires if path[i] == '\\' then n == 2 && c == Unescaped(path[i + 1]) else n == 1 && c == [path[i]]
    ensures QuotedKey(path, i) == Some((key, end))
       <==> |key| >= |c| && key[..|c|] == c && QuotedKey(path, i + n) == Some((key[|c|..], end))
    ensures i <= end < |path| && path[end] == '"' ==>
              (Spells(path[i..end], key)
               <==> i + n <= end && |key| >= |c| && key[..|c|] == c && Spells(path[i + n..end], key[|c|..]))
  {
    var rest := QuotedKey(path, i + n);
    assert QuotedKey(path, i) == Prefixed(c, rest);
    if |key| >= |c| && key[..|c|] == c {
      assert key == c + key[|c|..];
    }
    if rest.Some? {
      assert (c + rest.value.0)[..|c|] == c && (c + rest.value.0)[|c|..] == rest.value.0;
    }
    if i < end < |path| {
      var body := path[i..end];
      assert body[0] == path[i];
      if i + n <= end {
        assert body[n..] == path[i + n..end];
        assert n == 2 ==> body[1] == path[i + 1];
      }
    }
  }

  lemma {:induction false} BareExactly(path: string, i: nat, end: nat)
    requires i <= |path|
    ensures BareEnd(path, i) == end <==>
              && i <= end <= |path| && (forall k :: i <= k < end ==> path[k] != '.' && path[k] != '[')
              && (end == |path| || path[end] == '.' || path[end] == '[')
    decreases |path| - i
  {
    if i < |path| && path[i] != '.' && path[i] != '[' {
      BareExactly(path, i + 1, end);
    }
  }

  /** A key in quotes or without, right after the dots. */
  ghost predicate IsKeyText(path: string, j: nat, next: nat, key: string) {
    IsBareKey(path, j, next, key) || IsQuotedKey(path, j, next, key)
  }

  lemma StringExactly(path: string, j: nat, next: nat, key: string)
    requires j < |path| && path[j] != '*'
    ensures var escaped := path[j] == '"';
            var s := StringAt(path, if escaped then j + 1 else j, escaped);
            s.IsValid() && s.key == key && next == j + s.charsRead + (if escaped then 2 else 0) <==> IsKeyText(path, j, next, key)
  {
    if path[j] == '"' {
      if next >= j + 2 {
        QuotedExactly(path, j + 1, key, next - 1);
      }
      var q := QuotedKey(path, j + 1);
      if q.Some? {
        QuotedExactly(path, j + 1, q.value.0, q.value.1);
      }
    } else {
      BareExactly(path, j, next);
    }
  }

  lemma ShortText(path: string, i: nat, s: string)
    requires 0 < |s| <= 3
    ensures Has(path, i, s) <==>
              && i + |s| <= |path| && path[i] == s[0]
              && (|s| > 1 ==> path[i + 1] == s[1]) && (|s| > 2 ==> path[i + 2] == s[2])
  {
    if i + |s| <= |path| {
      var t := path[i..i + |s|];
      assert t[0] == path[i] && (|s| > 1 ==> t[1] == path[i + 1]) && (|s| > 2 ==> t[2] == path[i + 2]);
      assert t == s <==> forall k :: 0 <= k < |s| ==> t[k] == s[k];
    }
  }

  /** How steps begin, character by character. */
  lemma DotTexts(path: string, i: nat)
    ensures Has(path, i, ".") <==> i < |path| && path[i] == '.'
    ensures Has(path, i, "..") <==> i + 1 < |path| && path[i] == '.' && path[i + 1] == '.'
    ensures Has(path, i, ".*") <==> i + 1 < |path| && path[i] == '.' && path[i + 1] == '*'
    ensures Has(path, i, ".**") <==> i + 2 < |path| && path[i] == '.' && path[i + 1] == '*' && path[i + 2] == '*'
    ensures Has(path, i, "..*") <==> i + 2 < |path| && path[i] == '.' && path[i + 1] == '.' && path[i + 2] == '*'
    ensures Has(path, i, "..[") <==> i + 2 < |path| && path[i] == '.' && path[i + 1] == '.' && path[i + 2] == '['
  {
    hide Has;
    ShortText(path, i, ".");
    ShortText(path, i, "..");
    ShortText(path, i, ".*");
    ShortText(path, i, ".**");
    ShortText(path, i, "..*");
    ShortText(path, i, "..[");
  }

  lemma BracketTexts(path: string, i: nat)
    ensures Has(path, i, "[") <==> i < |path| && path[i] == '['
    ensures Has(path, i, "[-") <==> i + 1 < |path| && path[i] == '[' && path[i + 1] == '-'
    ensures Has(path, i, "[*]") <==> i + 2 < |path| && path[i] == '[' && path[i + 1] == '*' && path[i + 2] == ']'
    ensures Has(path, i, "[#]") <==> i + 2 < |path| && path[i] == '[' && path[i + 1] == '#' && path[i + 2] == ']'
    ensures Has(path, i, "[#-") <==> i + 2 < |path| && path[i] == '[' && path[i + 1] == '#' && path[i + 2] == '-'
  {
    hide Has;
    ShortText(path, i, "[");
    ShortText(path, i, "[-");
    ShortText(path, i, "[*]");
    ShortText(path, i, "[#]");
    ShortText(path, i, "[#-");
  }

  /** How a key begins. */
  lemma KeyBegins(path: string, j: nat, next: nat, key: string)
    requires IsKeyText(path, j, next, key)
    ensures j < |path| && path[j] != '.' && path[j] != '[' && path[j] != '*' && key != ""
  {
    if IsQuotedKey(path, j, next, key) {
      assert path[j + 1..next - 1] != "";
    }
  }

  lemma BareIsNoStar(path: string, j: nat, next: nat)
    ensures !IsBareKey(path, j, next, "*")
  {
  }

  /** A key after one dot or two. */
  lemma KeyStepExactly(path: string, i: nat, j: nat, next: nat, key: string, recursive: bool)
    requires i + 1 < |path| && path[i] == '.' && recursive == (path[i + 1] == '.')
    requires j == (if recursive then i + 2 else i + 1) && j < |path| && path[j] != '*' && (recursive ==> path[j] != '[')
    ensures next > i + 1 && KeyAt(path, i + 1) == KeyRead(next - (i + 1), recursive, key) <==> IsKeyText(path, j, next, key)
  {
    hide IsKeyText, StringAt;
    StringExactly(path, j, next, key);
    if IsKeyText(path, j, next, key) {
      KeyIsLong(path, j, next, key);
    }
  }

  lemma KeyIsLong(path: string, j: nat, next: nat, key: string)
    requires IsKeyText(path, j, next, key)
    ensures j < next
  {
  }

  /** No key begins with these characters. */
  lemma NoKeyHere(path: string, j: nat, next: nat, key: string)
    requires j < |path| ==> path[j] in {'.', '[', '*'}
    ensures !IsBareKey(path, j, next, key) && !IsQuotedKey(path, j, next, key)
  {
  }

  /** A dot and what follows it. */
  lemma DotExactly(path: string, i: nat, next: nat, step: Step)
    requires i + 1 < |path| && path[i] == '.'
    ensures StepAt(path, i) == StepRead(step, next) <==> IsStepText(path, i, next, step)
  {
    hide IsBareKey, IsQuotedKey, Has, IsNumberText, IndexAt, StringAt;
    DotTexts(path, i);
    BracketTexts(path, i);
    var key := if step.Key? || step.DescendKey? then step.key else "*";
    var recursive := path[i + 1] == '.';
    var j := if recursive then i + 2 else i + 1;
    BareIsNoStar(path, j, next);
    if recursive {
      NoKeyHere(path, i + 1, next, key);
    }
    if j == |path| || path[j] == '*' || (recursive && path[j] == '[') {
      NoKeyHere(path, j, next, key);
    } else {
      hide KeyAt;
      KeyStepExactly(path, i, j, next, key, recursive);
      KeyOfText(path, i, j, recursive);
      StepOfKeyExactly(path, i, next, step, key);
    }
  }

  lemma KeyOfText(path: string, i: nat, j: nat, recursive: bool)
    requires i + 1 < |path| && path[i] == '.' && recursive == (path[i + 1] == '.')
    requires j == (if recursive then i + 2 else i + 1) && j < |path| && path[j] != '*' && (recursive ==> path[j] != '[')
    ensures KeyAt(path, i + 1).IsValid() ==> KeyAt(path, i + 1).recursive == recursive
  {
  }

  lemma StepOfKeyExactly(path: string, i: nat, next: nat, step: Step, key: string)
    requires i + 1 < |path| && path[i] == '.' && key == if step.Key? || step.DescendKey? then step.key else "*"
    ensures StepAt(path, i) == StepRead(step, next) <==>
              var k := KeyAt(path, i + 1);
              && k.IsValid() && next == i + 1 + k.charsRead && k.key == key
              && match step
                 case Key(_) => !k.recursive && key != "*"
                 case AnyKey => !k.recursive
                 case DescendKey(_) => k.recursive && key != "*"
                 case Descend => k.recursive
                 case _ => false
  {
    hide KeyAt;
  }

  // ---------------------------------------------------------------- brackets

  lemma {:induction false} DigitsExactly(path: string, i: nat, left: nat, idx: nat, n: nat, end: nat)
    requires i <= |path| && left <= SAFE_DIGITS
    ensures DigitsAt(path, i, left, idx) == Some((n, end)) <==>
              && i <= end <= |path| && end - i <= left && JsonPathPrinter.AllDigits(path[i..end])
              && n == ValueOf(path[i..end], idx) && (end - i == left || (end < |path| && path[end] == ']'))
    decreases left
  {
    hide DigitsAt, PowerOfTen, ValueOf, JsonPathPrinter.AllDigits;
    DigitsUnfold(path, i, left, idx);
    NoDigits(path, i, idx);
    if i < end <= |path| {
      DigitsSplit(path, i, end, idx);
    }
    if left > 0 && i < |path| && IsDigit(path[i]) {
      DigitsExactly(path, i + 1, left - 1, idx * 10 + DigitValue(path[i]), n, end);
    }
  }

  lemma NoDigits(path: string, i: nat, idx: nat)
    requires i <= |path|
    ensures JsonPathPrinter.AllDigits(path[i..i]) && ValueOf(path[i..i], idx) == idx
  {
    assert path[i..i] == "";
  }

  lemma DigitsSplit(path: string, i: nat, end: nat, idx: nat)
    requires i < end <= |path|
    ensures JsonPathPrinter.AllDigits(path[i..end]) <==> IsDigit(path[i]) && JsonPathPrinter.AllDigits(path[i + 1..end])
    ensures JsonPathPrinter.AllDigits(path[i..end]) ==>
              ValueOf(path[i..end], idx) == ValueOf(path[i + 1..end], idx * 10 + DigitValue(path[i]))
  {
    hide ValueOf;
    var digits := path[i..end];
    assert digits[0] == path[i] && digits[1..] == path[i + 1..end];
    assert digits == [path[i]] + path[i + 1..end];
    if JsonPathPrinter.AllDigits(digits) {
      ValueOfTail(digits, idx);
    }
  }

  /** A number and what stands for its bracket. */
  lemma NumberExactly(path: string, j: nat, next: nat, n: nat)
    requires j <= |path|
    ensures next <= |path| && next > j + 1 && DigitsAt(path, j, SAFE_DIGITS, 0) == Some((n, next - 1))
       <==> IsNumberText(path, j, next, n)
  {
    if j + 1 < next <= |path| {
      DigitsExactly(path, j, SAFE_DIGITS, 0, n, next - 1);
    }
  }

  lemma NumberBegins(path: string, j: nat, next: nat, n: nat)
    requires IsNumberText(path, j, next, n)
    ensures j < |path| && IsDigit(path[j])
  {
    assert path[j..next - 1][0] == path[j];
  }

  /** A bracket and what follows it. */
  lemma BracketExactly(path: string, i: nat, next: nat, step: Step)
    requires i + 1 < |path| && path[i] == '['
    ensures StepAt(path, i) == StepRead(step, next) <==> IsStepText(path, i, next, step)
  {
    hide IsBareKey, IsQuotedKey, Has, IsNumberText, DigitsAt, KeyAt, PowerOfTen;
    DotTexts(path, i);
    BracketTexts(path, i);
    var n := match step case Index(n) => n case BackIndex(n) => n case _ => 0;
    forall j | i < j <= |path|
      ensures next <= |path| && next > j + 1 && DigitsAt(path, j, SAFE_DIGITS, 0) == Some((n, next - 1))
         <==> IsNumberText(path, j, next, n)
      ensures IsNumberText(path, j, next, n) ==> j < |path| && IsDigit(path[j])
    {
      NumberExactly(path, j, next, n);
      if IsNumberText(path, j, next, n) {
        NumberBegins(path, j, next, n);
      }
    }
    assert IndexAt(path, i + 1).WildIndex? <==> Has(path, i, "[*]");
  }

  // ---------------------------------------------------------------- whole paths

  /** A step is read exactly from its texts. */
  lemma StepExactly(path: string, i: nat, next: nat, step: Step)
    requires i < |path|
    ensures StepAt(path, i) == StepRead(step, next) <==> i < next <= |path| && IsStepText(path, i, next, step)
  {
    hide IsBareKey, IsQuotedKey, IsNumberText, KeyAt, IndexAt;
    if i + 1 < |path| && path[i] == '.' {
      DotExactly(path, i, next, step);
    } else if i + 1 < |path| && path[i] == '[' {
      BracketExactly(path, i, next, step);
    } else {
      hide Has;
      DotTexts(path, i);
      BracketTexts(path, i);
      if i + 1 == |path| && i < next <= |path| {
        LastCharacter(path, i, next, step);
      }
    }
  }

  /** A step is longer than one character. */
  lemma LastCharacter(path: string, i: nat, next: nat, step: Step)
    requires i + 1 >= |path| && i < next <= |path|
    ensures !IsStepText(path, i, next, step)
  {
  }

  /** Reading a path gives these steps exactly when its text is made up of them; so no text means two paths. */
  lemma {:induction false} PathExactly(path: string, i: nat, steps: seq<Step>)
    requires i <= |path|
    ensures StepsAt(path, i) == Steps(steps) <==> IsPathText(path, i, steps)
    decreases |path| - i
  {
    hide StepAt, IsStepText;
    if i < |path| && steps != [] {
      if StepAt(path, i).StepRead? {
        var step, next := StepAt(path, i).step, StepAt(path, i).next;
        StepExactly(path, i, next, step);
        PathExactly(path, next, steps[1..]);
        assert steps == [steps[0]] + steps[1..];
      }
      forall next: nat
        ensures StepAt(path, i) == StepRead(steps[0], next) <==> i < next <= |path| && IsStepText(path, i, next, steps[0])
      {
        StepExactly(path, i, next, steps[0]);
      }
      PathStep(path, i, steps);
    } else if i == |path| && steps != [] {
      NothingBehindTheEnd(path, steps);
    }
  }

  lemma PathStep(path: string, i: nat, steps: seq<Step>)
    requires i < |path| && steps != []
    ensures StepsAt(path, i) == Steps(steps) <==>
              var step := StepAt(path, i);
              step.StepRead? && step.step == steps[0] && StepsAt(path, step.next) == Steps(steps[1..])
  {
    hide StepAt;
    assert steps == [steps[0]] + steps[1..];
  }

  lemma NothingBehindTheEnd(path: string, steps: seq<Step>)
    requires steps != []
    ensures !IsPathText(path, |path|, steps)
  {
  }
}
