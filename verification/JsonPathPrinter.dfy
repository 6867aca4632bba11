/**
 Writing a path down and reading it back.  The printer is the inverse that the path reader is proved
 against: it uses one spelling per step, with keys in quotes.
 */
module JsonPathPrinter {
  import opened Options
  import opened JsonPathReader
  import opened Texts

  function Escape(key: string): (s: string)
    ensures key != "" ==> s != ""
  {
    if key == "" then ""
    else (if key[0] == '"' || key[0] == '\\' then ['\\', key[0]] else [key[0]]) + Escape(key[1..])
  }

  function Digit(d: nat): (c: char)
    requires d < 10
    ensures IsDigit(c) && DigitValue(c) == d
  {
    '0' + d as char
  }

  predicate AllDigits(s: string) {
    forall i :: 0 <= i < |s| ==> IsDigit(s[i])
  }

  function Decimal(n: nat): (s: string)
    ensures s != "" && AllDigits(s)
  {
    if n < 10 then [Digit(n)] else Decimal(n / 10) + [Digit(n % 10)]
  }

  function QuotedText(key: string): string {
    "\"" + (Escape(key) + "\"")
  }

  /** A key after the '.' of its step, and an index after the '['. */
  function KeyText(key: string, recursive: bool): (s: string)
    ensures s != ""
  {
    if recursive then "." + QuotedText(key) else QuotedText(key)
  }

  function IndexText(n: nat, fromBack: bool): (s: string)
    ensures s != ""
  {
    if fromBack then "#-" + (Decimal(n) + "]") else Decimal(n) + "]"
  }

  function Print(step: Step): (s: string)
    ensures |s| >= 2 && (s[0] == '.' || s[0] == '[')
  {
    match step
    case Key(key) => "." + KeyText(key, false)
    case AnyKey => ".*"
    case Index(n) => "[" + IndexText(n, false)
    case BackIndex(n) => "[" + IndexText(n, true)
    case AnyIndex => "[*]"
    case Descend => "..*"
    case DescendKey(key) => "." + KeyText(key, true)
  }

  function PrintAll(steps: seq<Step>): string {
    if steps == [] then "" else Print(steps[0]) + PrintAll(steps[1..])
  }

  /** Keys must not be empty nor `*`, and an index must have at most 19 digits. */
  predicate Printable(step: Step) {
    match step
    case Key(key) => key != "" && key != "*"
    case DescendKey(key) => key != "" && key != "*"
    case Index(n) => n < PowerOfTen(SAFE_DIGITS)
    case BackIndex(n) => n < PowerOfTen(SAFE_DIGITS)
    case _ => true
  }

  predicate AllPrintable(steps: seq<Step>) {
    forall i :: 0 <= i < |steps| ==> Printable(steps[i])
  }

  lemma {:induction false} ReadsEscapedKey(path: string, i: nat, key: string)
    requires Has(path, i, Escape(key) + "\"")
    ensures QuotedKey(path, i) == Some((key, i + |Escape(key)|))
    decreases |key|
  {
    var s := Escape(key) + "\"";
    HasChar(path, i, s, 0);
    if key != "" {
      var first := if key[0] == '"' || key[0] == '\\' then ['\\', key[0]] else [key[0]];
      assert s == first + (Escape(key[1..]) + "\"");
      HasParts(path, i, first, Escape(key[1..]) + "\"");
      HasChar(path, i, s, |first| - 1);
      ReadsEscapedKey(path, i + |first|, key[1..]);
      assert key == [key[0]] + key[1..];
    }
  }

  /** The value of a string of digits that follow digits with value `idx`. */
  function ValueOf(digits: string, idx: nat): nat
    requires AllDigits(digits)
  {
    if digits == "" then idx else ValueOf(digits[..|digits| - 1], idx) * 10 + DigitValue(digits[|digits| - 1])
  }

  lemma {:induction false} ValueOfTail(digits: string, idx: nat)
    requires AllDigits(digits)
    requires digits != ""
    ensures ValueOf(digits, idx) == ValueOf(digits[1..], idx * 10 + DigitValue(digits[0]))
    decreases |digits|
  {
    var n := |digits| - 1;
    if n > 0 {
      ValueOfTail(digits[..n], idx);
      assert digits[..n][1..] == digits[1..][..n - 1];
    } else {
      assert digits[..0] == "" && digits[1..] == "";
    }
  }

  lemma {:induction false} DecimalValue(n: nat)
    ensures ValueOf(Decimal(n), 0) == n
  {
    var s := Decimal(n);
    if n >= 10 {
      DecimalValue(n / 10);
      assert s[..|s| - 1] == Decimal(n / 10);
    } else {
      assert s[..0] == "";
    }
  }

  lemma {:induction false} DecimalLength(n: nat, k: nat)
    requires k > 0
    ensures |Decimal(n)| <= k <==> n < PowerOfTen(k)
  {
    if n >= 10 {
      if k == 1 {
        assert PowerOfTen(1) == 10;
      } else {
        DecimalLength(n / 10, k - 1);
      }
    } else {
      PowerOfTenGrows(1, k);
    }
  }

  lemma {:induction false} ReadsDigits(path: string, i: nat, digits: string, left: nat, idx: nat)
    requires AllDigits(digits)
    requires Has(path, i, digits + "]") && |digits| <= left <= SAFE_DIGITS
    ensures DigitsAt(path, i, left, idx) == Some((ValueOf(digits, idx), i + |digits|))
    decreases |digits|
  {
    hide ValueOf, Has, AllDigits, DigitsAt, PowerOfTen;
    if digits == "" {
      ReadsBracket(path, i, left, idx);
    } else {
      SplitFirstDigit(path, i, digits);
      ValueOfTail(digits, idx);
      ReadsOneDigit(path, i, left, idx);
      ReadsDigits(path, i + 1, digits[1..], left - 1, idx * 10 + DigitValue(digits[0]));
    }
  }

  lemma ReadsBracket(path: string, i: nat, left: nat, idx: nat)
    requires Has(path, i, "" + "]") && left <= SAFE_DIGITS
    ensures i <= |path| && DigitsAt(path, i, left, idx) == Some((ValueOf("", idx), i))
  {
    hide PowerOfTen;
    HasChar(path, i, "" + "]", 0);
  }

  lemma ReadsOneDigit(path: string, i: nat, left: nat, idx: nat)
    requires i < |path| && IsDigit(path[i]) && 0 < left <= SAFE_DIGITS
    ensures DigitsAt(path, i, left, idx) == DigitsAt(path, i + 1, left - 1, idx * 10 + DigitValue(path[i]))
  {
    hide PowerOfTen;
  }

  lemma SplitFirstDigit(path: string, i: nat, digits: string)
    requires AllDigits(digits) && digits != "" && Has(path, i, digits + "]")
    ensures i < |path| && path[i] == digits[0] && IsDigit(path[i])
    ensures AllDigits(digits[1..]) && Has(path, i + 1, digits[1..] + "]")
  {
    assert digits + "]" == [digits[0]] + (digits[1..] + "]");
    HasParts(path, i, [digits[0]], digits[1..] + "]");
    HasChar(path, i, [digits[0]], 0);
  }

  lemma ReadsDecimal(path: string, i: nat, n: nat)
    requires Has(path, i, Decimal(n) + "]") && n < PowerOfTen(SAFE_DIGITS)
    ensures i <= |path| && DigitsAt(path, i, SAFE_DIGITS, 0) == Some((n, i + |Decimal(n)|))
  {
    hide PowerOfTen, Decimal, ValueOf, DigitsAt, AllDigits;
    DecimalLength(n, SAFE_DIGITS);
    DecimalValue(n);
    ReadsDigits(path, i, Decimal(n), SAFE_DIGITS, 0);
  }

  lemma StartsWithDigit(path: string, i: nat, n: nat)
    requires Has(path, i, Decimal(n) + "]")
    ensures i < |path| && IsDigit(path[i])
  {
    hide Decimal;
    HasChar(path, i, Decimal(n) + "]", 0);
  }

  lemma ReadsQuotedText(path: string, j: nat, key: string)
    requires key != "" && Has(path, j, QuotedText(key))
    ensures j + 1 < |path| && path[j] == '"'
    ensures StringAt(path, j + 1, true) == KeyRead(|QuotedText(key)| - 2, false, key) && |QuotedText(key)| > 2
  {
    hide QuotedKey;
    HasParts(path, j, "\"", Escape(key) + "\"");
    HasChar(path, j, "\"", 0);
    ReadsEscapedKey(path, j + 1, key);
  }

  /** A key in quotes after a '.' is read as that key, recursive or not. */
  lemma ReadsPrintedKey(path: string, i: nat, key: string, recursive: bool)
    requires key != "" && Has(path, i, KeyText(key, recursive))
    ensures KeyAt(path, i) == KeyRead(|KeyText(key, recursive)|, recursive, key)
  {
    hide QuotedText, StringAt;
    if recursive {
      HasParts(path, i, ".", QuotedText(key));
      HasChar(path, i, ".", 0);
      ReadsQuotedText(path, i + 1, key);
    } else {
      ReadsQuotedText(path, i, key);
    }
  }

  /** A number in brackets is read as that index. */
  lemma ReadsPrintedIndex(path: string, i: nat, n: nat, fromBack: bool)
    requires n < PowerOfTen(SAFE_DIGITS) && Has(path, i, IndexText(n, fromBack))
    ensures IndexAt(path, i) == NumberedIndex(n, fromBack, i + |IndexText(n, fromBack)|)
  {
    hide PowerOfTen, Decimal, DigitsAt, AllDigits;
    if fromBack {
      HasParts(path, i, "#-", Decimal(n) + "]");
      HasChar(path, i, "#-", 0);
      HasChar(path, i, "#-", 1);
      ReadsDecimal(path, i + 2, n);
    } else {
      ReadsDecimal(path, i, n);
      StartsWithDigit(path, i, n);
    }
  }

  /** A printed step is read back, whatever step or end follows it. */
  lemma ReadsPrintedStep(path: string, i: nat, step: Step)
    requires Printable(step) && Has(path, i, Print(step))
    requires i + |Print(step)| == |path| || path[i + |Print(step)|] == '.' || path[i + |Print(step)|] == '['
    ensures StepAt(path, i) == StepRead(step, i + |Print(step)|)
  {
    var s := Print(step);
    HasChar(path, i, s, 0);
    HasChar(path, i, s, 1);
    hide PowerOfTen, KeyText, IndexText, KeyAt, IndexAt;
    match step
    case Key(key) => ReadsKeyStep(path, i, key, false);
    case DescendKey(key) => ReadsKeyStep(path, i, key, true);
    case Index(n) => ReadsIndexStep(path, i, n, false);
    case BackIndex(n) => ReadsIndexStep(path, i, n, true);
    case AnyKey =>
    case AnyIndex => HasChar(path, i, s, 2);
    case Descend => HasChar(path, i, s, 2);
  }

  lemma ReadsKeyStep(path: string, i: nat, key: string, recursive: bool)
    requires key != "" && key != "*" && Has(path, i, "." + KeyText(key, recursive))
    ensures StepAt(path, i) == StepRead(if recursive then DescendKey(key) else Key(key), i + 1 + |KeyText(key, recursive)|)
  {
    hide KeyText, KeyAt;
    HasParts(path, i, ".", KeyText(key, recursive));
    HasChar(path, i, ".", 0);
    ReadsPrintedKey(path, i + 1, key, recursive);
  }

  lemma ReadsIndexStep(path: string, i: nat, n: nat, fromBack: bool)
    requires n < PowerOfTen(SAFE_DIGITS) && Has(path, i, "[" + IndexText(n, fromBack))
    ensures StepAt(path, i) == StepRead(if fromBack then BackIndex(n) else Index(n), i + 1 + |IndexText(n, fromBack)|)
  {
    hide IndexText, IndexAt, PowerOfTen;
    HasParts(path, i, "[", IndexText(n, fromBack));
    HasChar(path, i, "[", 0);
    ReadsPrintedIndex(path, i + 1, n, fromBack);
  }

  lemma {:induction false} ReadsPrintedSteps(path: string, i: nat, steps: seq<Step>)
    requires AllPrintable(steps) && EndsWith(path, i, PrintAll(steps))
    ensures i <= |path| && StepsAt(path, i) == Steps(steps)
    decreases |steps|
  {
    hide StepsAt, StepAt, Print, PrintAll, Printable, AllPrintable, EndsWith, Has;
    if steps == [] {
      NoMoreSteps(path, i);
    } else {
      TailPrintable(steps);
      var next := i + |Print(steps[0])|;
      FirstStepText(path, i, steps);
      StepBoundary(path, next, steps[1..]);
      ReadsPrintedStep(path, i, steps[0]);
      ReadsPrintedSteps(path, next, steps[1..]);
      StepThenSteps(path, i, next, steps);
    }
  }

  lemma NoMoreSteps(path: string, i: nat)
    requires EndsWith(path, i, PrintAll([]))
    ensures i <= |path| && StepsAt(path, i) == Steps([])
  {
    assert |path[i..]| == 0;
  }

  lemma TailPrintable(steps: seq<Step>)
    requires AllPrintable(steps) && steps != []
    ensures Printable(steps[0]) && AllPrintable(steps[1..])
  {
  }

  lemma StepThenSteps(path: string, i: nat, next: nat, steps: seq<Step>)
    requires i < |path| && steps != [] && StepAt(path, i) == StepRead(steps[0], next)
    requires StepsAt(path, next) == Steps(steps[1..])
    ensures StepsAt(path, i) == Steps(steps)
  {
    assert steps == [steps[0]] + steps[1..];
  }

  lemma FirstStepText(path: string, i: nat, steps: seq<Step>)
    requires EndsWith(path, i, PrintAll(steps)) && steps != []
    ensures i < i + |Print(steps[0])| <= |path|
    ensures Has(path, i, Print(steps[0])) && EndsWith(path, i + |Print(steps[0])|, PrintAll(steps[1..]))
  {
    hide Print;
    EndsWithParts(path, i, Print(steps[0]), PrintAll(steps[1..]));
  }

  /** Where printed steps begin, a step or the end of the path follows. */
  lemma StepBoundary(path: string, i: nat, steps: seq<Step>)
    requires EndsWith(path, i, PrintAll(steps))
    ensures i == |path| || path[i] == '.' || path[i] == '['
  {
    if steps != [] {
      hide Print;
      FirstStepText(path, i, steps);
      HasChar(path, i, Print(steps[0]), 0);
    } else {
      assert |path[i..]| == 0;
    }
  }

  /** What the reader produces is always printable. */
  lemma ReadStepIsPrintable(path: string, i: nat)
    requires i < |path| && StepAt(path, i).StepRead?
    ensures Printable(StepAt(path, i).step)
  {
    SafeDigitsAreSafe();
    hide PowerOfTen;
  }

  lemma {:induction false} ReadStepsArePrintable(path: string, i: nat)
    requires i <= |path| && StepsAt(path, i).Steps?
    ensures AllPrintable(StepsAt(path, i).steps)
    decreases |path| - i
  {
    if i < |path| {
      ReadStepIsPrintable(path, i);
      ReadStepsArePrintable(path, StepAt(path, i).next);
    }
  }

  /** Printing steps and reading them back recovers them exactly when they are printable. */
  lemma RoundTrip(steps: seq<Step>)
    ensures StepsAt("$" + PrintAll(steps), 1) == Steps(steps) <==> AllPrintable(steps)
  {
    var path := "$" + PrintAll(steps);
    assert path[1..] == PrintAll(steps);
    if AllPrintable(steps) {
      ReadsPrintedSteps(path, 1, steps);
    } else if StepsAt(path, 1) == Steps(steps) {
      ReadStepsArePrintable(path, 1);
    }
  }
}
