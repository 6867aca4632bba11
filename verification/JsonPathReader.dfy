/**
 Reading a JSON path: keys, array indexes and the validator.  A path is a string and `ptr` an index
 into it; the methods advance `ptr` as the program does, and the functions beside them say what a
 path means from a position on.
 */
module JsonPathReader {
  import opened Options

  const INVALID_INDEX: nat := 0xFFFF_FFFF_FFFF_FFFF
  const UINT32_MAX: nat := 0xFFFF_FFFF
  const SAFE_DIGITS: nat := 19

  datatype KeyRead = KeyRead(charsRead: nat, recursive: bool, key: string)
  {
    predicate IsValid() { charsRead != 0 }
    predicate IsWildCard() { key == "*" }
  }

  const EMPTY_KEY := KeyRead(0, false, "")

  /** One step of a path. */
  datatype Step =
    | Key(key: string)         // .key
    | AnyKey                   // .*
    | Index(index: nat)        // [n]
    | BackIndex(back: nat)     // [#-n] or [-n]
    | AnyIndex                 // [*]
    | Descend                  // .** or ..*
    | DescendKey(key: string)  // ..key
  {
    predicate IsWild() { AnyKey? || AnyIndex? || Descend? || DescendKey? }
  }

  // ---------------------------------------------------------------- keys

  /** A key whose first characters are known, and the position of its closing quote. */
  function Prefixed(first: string, rest: Option<(string, nat)>): Option<(string, nat)> {
    match rest
    case None => None
    case Some((key, end)) => Some((first + key, end))
  }

  /** What a backslash followed by `c` stands for: only quotes and backslashes are escaped. */
  function Unescaped(c: char): string {
    if c == '"' || c == '\\' then [c] else ['\\', c]
  }

  /** The key that starts at `i` inside quotes, and the position of its closing quote. */
  function QuotedKey(path: string, i: nat): (r: Option<(string, nat)>)
    requires i <= |path|
    decreases |path| - i
    ensures r.Some? ==> i <= r.value.1 < |path| && |r.value.0| <= r.value.1 - i && (r.value.0 == "" ==> r.value.1 == i)
  {
    if i == |path| then None
    else if path[i] == '"' then Some(("", i))
    else if path[i] != '\\' then Prefixed([path[i]], QuotedKey(path, i + 1))
    else if i + 1 == |path| then None
    else Prefixed(Unescaped(path[i + 1]), QuotedKey(path, i + 2))
  }

  /** Where a key without quotes ends. */
  function BareEnd(path: string, i: nat): (end: nat)
    requires i <= |path|
    decreases |path| - i
    ensures i <= end <= |path|
    ensures forall j :: i <= j < end ==> path[j] != '.' && path[j] != '['
    ensures end < |path| ==> path[end] == '.' || path[end] == '['
  {
    if i == |path| || path[i] == '.' || path[i] == '[' then i else BareEnd(path, i + 1)
  }

  function StringAt(path: string, i: nat, escaped: bool): (r: KeyRead)
    requires i <= |path|
    ensures i + r.charsRead <= |path| && !r.recursive
  {
    if escaped then
      match QuotedKey(path, i)
      case None => EMPTY_KEY
      case Some((key, end)) => KeyRead(end - i, false, key)
    else KeyRead(BareEnd(path, i) - i, false, path[i..BareEnd(path, i)])
  }

  /** The rest of a quoted key, while the loop is inside it. */
  ghost function QuotedRest(path: string, i: nat, backslash: bool): Option<(string, nat)>
    requires i <= |path|
  {
    if !backslash then QuotedKey(path, i)
    else if i == |path| then None
    else Prefixed(Unescaped(path[i]), QuotedKey(path, i + 1))
  }

  lemma PrefixedByNothing(rest: Option<(string, nat)>)
    ensures Prefixed("", rest) == rest
  {
    if rest.Some? {
      assert "" + rest.value.0 == rest.value.0;
    }
  }

  lemma PrefixedTwice(first: string, second: string, rest: Option<(string, nat)>)
    ensures Prefixed(first, Prefixed(second, rest)) == Prefixed(first + second, rest)
  {
    if rest.Some? {
      assert first + (second + rest.value.0) == first + second + rest.value.0;
    }
  }

  method ReadString(path: string, start: nat, escaped: bool) returns (r: KeyRead)
    requires start <= |path|
    ensures r == StringAt(path, start, escaped)
  {
    var ptr := start;
    if escaped {
      r := ReadQuoted(path, start);
    } else {
      while ptr != |path|
        invariant start <= ptr <= |path|
        invariant BareEnd(path, start) == BareEnd(path, ptr)
        decreases |path| - ptr
      {
        if path[ptr] == '.' || path[ptr] == '[' {
          break;
        }
        ptr := ptr + 1;
      }
      r := KeyRead(ptr - start, false, path[start..ptr]);
    }
  }

  /** The quoted half: the key buffer is as long as the rest of the path, which is always enough. */
  method ReadQuoted(path: string, start: nat) returns (r: KeyRead)
    requires start <= |path|
    ensures r == StringAt(path, start, true)
  {
    var key := new char[|path| - start](_ => '\0');
    var keyLen := 0;
    var ptr := start;
    var backslash := false;
    PrefixedByNothing(QuotedKey(path, start));
    while ptr != |path|
      invariant start <= ptr <= |path|
      invariant keyLen + (if backslash then 1 else 0) <= ptr - start
      invariant QuotedKey(path, start) == Prefixed(key[..keyLen], QuotedRest(path, ptr, backslash))
      decreases |path| - ptr
    {
      ghost var read, before := key[..keyLen], ptr;
      if backslash {
        PrefixedTwice(read, Unescaped(path[ptr]), QuotedKey(path, ptr + 1));
        if path[ptr] != '"' && path[ptr] != '\\' {
          key[keyLen] := '\\';
          keyLen := keyLen + 1;
        }
        backslash := false;
      } else {
        if path[ptr] == '"' {
          break;
        } else if path[ptr] == '\\' {
          backslash := true;
          ptr := ptr + 1;
          continue;
        }
        PrefixedTwice(read, [path[ptr]], QuotedKey(path, ptr + 1));
      }
      key[keyLen] := path[ptr];
      keyLen := keyLen + 1;
      ptr := ptr + 1;
      assert key[..keyLen] == read + [path[before]] || key[..keyLen] == read + ['\\', path[before]];
    }
    if ptr == |path| || backslash {
      r := EMPTY_KEY;
    } else {
      r := KeyRead(ptr - start, false, key[..keyLen]);
    }
  }

  /** The key at position `i`, just after a '.'. */
  function KeyAt(path: string, i: nat): (r: KeyRead)
    requires i < |path|
    ensures i + r.charsRead <= |path|
  {
    if path[i] == '*' then
      if i + 1 != |path| && path[i + 1] == '*' then KeyRead(2, true, "*") else KeyRead(1, false, "*")
    else
      var recursive := path[i] == '.';
      if recursive && i + 1 < |path| && path[i + 1] == '*' then KeyRead(2, true, "*")
      else if recursive && i + 1 < |path| && path[i + 1] == '[' then KeyRead(1, true, "*")
      else
        var j := if recursive then i + 1 else i;
        if j == |path| then EMPTY_KEY
        else
          var escaped := path[j] == '"';
          var s := StringAt(path, if escaped then j + 1 else j, escaped);
          if !s.IsValid() then s
          else KeyRead(s.charsRead + (if escaped then 2 else 0) + (if recursive then 1 else 0), recursive, s.key)
  }

  method ReadKey(path: string, start: nat) returns (r: KeyRead)
    requires start < |path|
    ensures r == KeyAt(path, start)
  {
    var ptr := start;
    if path[ptr] == '*' {
      if ptr + 1 != |path| && path[ptr + 1] == '*' {
        return KeyRead(2, true, "*");
      }
      return KeyRead(1, false, "*");
    }
    var recursive := false;
    if path[ptr] == '.' {
      var next := if ptr + 1 == |path| then '\0' else path[ptr + 1];
      if next == '*' {
        return KeyRead(2, true, "*");
      }
      if next == '[' {
        return KeyRead(1, true, "*");
      }
      ptr := ptr + 1;
      recursive := true;
    }
    if ptr == |path| {
      return EMPTY_KEY;
    }
    var escaped := false;
    if path[ptr] == '"' {
      ptr := ptr + 1;
      escaped := true;
    }
    r := ReadString(path, ptr, escaped);
    if !r.IsValid() {
      return;
    }
    if escaped {
      r := r.(charsRead := r.charsRead + 2);
    }
    if recursive {
      r := r.(charsRead := r.charsRead + 1, recursive := true);
    }
  }

  // ---------------------------------------------------------------- array indexes

  predicate IsDigit(c: char) { '0' <= c <= '9' }

  function DigitValue(c: char): (d: nat)
    requires IsDigit(c)
    ensures d <= 9
  {
    (c - '0') as nat
  }

  /** The largest value of `n` digits, plus one. */
  function PowerOfTen(n: nat): (p: nat)
    ensures p > 0
  {
    if n == 0 then 1 else 10 * PowerOfTen(n - 1)
  }

  datatype IndexRead = BadIndex | WildIndex(next: nat) | NumberedIndex(index: nat, fromBack: bool, next: nat)

  /** Up to `left` more digits of a number whose digits so far give `idx`: the number, and where reading
      stops.  A closing bracket ends the number; after the last digit allowed nothing is looked at. */
  function DigitsAt(path: string, i: nat, left: nat, idx: nat): (r: Option<(nat, nat)>)
    requires i <= |path| && left <= SAFE_DIGITS
    decreases left
    ensures r.Some? ==> i <= r.value.1 <= |path| && r.value.1 - i <= left
    ensures r.Some? && idx < PowerOfTen(SAFE_DIGITS - left) ==> r.value.0 < PowerOfTen(SAFE_DIGITS)
  {
    if left == 0 then Some((idx, i))
    else if i == |path| then None
    else if path[i] == ']' then
      PowerOfTenGrows(SAFE_DIGITS - left, SAFE_DIGITS);
      Some((idx, i))
    else if IsDigit(path[i]) then DigitsAt(path, i + 1, left - 1, idx * 10 + DigitValue(path[i]))
    else None
  }

  lemma {:induction false} PowerOfTenGrows(m: nat, n: nat)
    requires m <= n
    ensures PowerOfTen(m) <= PowerOfTen(n)
    decreases n
  {
    if m < n {
      PowerOfTenGrows(m, n - 1);
    }
  }

  /** Numbers of 19 digits stay below the value that stands for a wildcard. */
  lemma SafeDigitsAreSafe()
    ensures PowerOfTen(SAFE_DIGITS) == 10_000_000_000_000_000_000 <= INVALID_INDEX
  {
    assert PowerOfTen(4) == 10000;
    assert PowerOfTen(8) == 100000000;
    assert PowerOfTen(12) == 1000000000000;
    assert PowerOfTen(16) == 10000000000000000;
    assert PowerOfTen(19) == 10000000000000000000;
  }

  lemma DigitsUnfold(path: string, i: nat, left: nat, idx: nat)
    requires i <= |path| && left <= SAFE_DIGITS
    ensures left == 0 ==> DigitsAt(path, i, left, idx) == Some((idx, i))
    ensures left > 0 && i == |path| ==> DigitsAt(path, i, left, idx) == None
    ensures left > 0 && i < |path| && path[i] == ']' ==> DigitsAt(path, i, left, idx) == Some((idx, i))
    ensures left > 0 && i < |path| && path[i] != ']' && !IsDigit(path[i]) ==> DigitsAt(path, i, left, idx) == None
    ensures left > 0 && i < |path| && IsDigit(path[i]) ==>
              DigitsAt(path, i, left, idx) == DigitsAt(path, i + 1, left - 1, idx * 10 + DigitValue(path[i]))
  {
  }

  lemma ReadNumbersAreSafe(path: string, i: nat)
    requires i <= |path|
    ensures DigitsAt(path, i, SAFE_DIGITS, 0).Some? ==> DigitsAt(path, i, SAFE_DIGITS, 0).value.0 < INVALID_INDEX
  {
    SafeDigitsAreSafe();
    hide DigitsAt;
    assert PowerOfTen(SAFE_DIGITS - SAFE_DIGITS) == 1;
    hide PowerOfTen;
  }

  method ReadInteger(path: string, start: nat) returns (chars: nat, idx: nat)
    requires start <= |path|
    ensures match DigitsAt(path, start, SAFE_DIGITS, 0)
            case None => chars == 0
            case Some((n, end)) => chars == end - start && idx == n
  {
    hide DigitsAt, IsDigit;
    ghost var number := DigitsAt(path, start, SAFE_DIGITS, 0);
    var ptr := start;
    idx := 0;
    var i := 0;
    while i < SAFE_DIGITS
      invariant i <= SAFE_DIGITS && start + i == ptr <= |path|
      invariant number == DigitsAt(path, ptr, SAFE_DIGITS - i, idx)
    {
      DigitsUnfold(path, ptr, SAFE_DIGITS - i, idx);
      if ptr == |path| {
        return 0, idx;
      }
      if path[ptr] == ']' {
        return ptr - start, idx;
      }
      if !IsDigit(path[ptr]) {
        return 0, idx;
      }
      idx := idx * 10 + DigitValue(path[ptr]);
      ptr := ptr + 1;
      i := i + 1;
    }
    DigitsUnfold(path, ptr, 0, idx);
    chars := ptr - start;  // a test for overflow here would never succeed, by ReadNumbersAreSafe
  }

  /** The array index at position `i`, just after a '['.  `next` is past the closing bracket; after 19
      digits the bracket is not checked, and `next` can lie beyond the end of the path. */
  function IndexAt(path: string, i: nat): (r: IndexRead)
    requires i < |path|
    ensures r.WildIndex? ==> i < r.next <= |path|
    ensures r.NumberedIndex? ==> i < r.next <= |path| + 1
  {
    if path[i] == '*' then
      if i + 1 < |path| && path[i + 1] == ']' then WildIndex(i + 2) else BadIndex
    else if path[i] == '#' && i + 1 < |path| && path[i + 1] == ']' then NumberedIndex(UINT32_MAX, false, i + 2)
    else if path[i] == '#' && (i + 1 == |path| || path[i + 1] != '-') then BadIndex
    else
      var fromBack := path[i] == '#' || path[i] == '-';
      var j := if path[i] == '#' then i + 2 else if path[i] == '-' then i + 1 else i;
      match DigitsAt(path, j, SAFE_DIGITS, 0)
      case None => BadIndex
      case Some((n, end)) => if end == j then BadIndex else NumberedIndex(n, fromBack, end + 1)
  }

  method ReadArrayIndex(path: string, start: nat) returns (ok: bool, ptr: nat, arrayIndex: nat, fromBack: bool)
    requires start < |path|
    ensures match IndexAt(path, start)
            case BadIndex => !ok
            case WildIndex(next) => ok && ptr == next && arrayIndex == INVALID_INDEX && !fromBack
            case NumberedIndex(n, back, next) => ok && ptr == next && arrayIndex == n < INVALID_INDEX && fromBack == back
  {
    hide DigitsAt, PowerOfTen;
    ok, ptr, arrayIndex, fromBack := false, start, 0, false;
    if path[ptr] == '*' {
      ptr := ptr + 1;
      if ptr == |path| || path[ptr] != ']' {
        return;
      }
      arrayIndex := INVALID_INDEX;
    } else {
      if path[ptr] == '#' {
        ptr := ptr + 1;
        if ptr == |path| {
          return;
        }
        if path[ptr] == ']' {
          arrayIndex := UINT32_MAX;
          ptr := ptr + 1;
          ok := true;
          return;
        }
        if path[ptr] != '-' {
          return;
        }
        fromBack := true;
      }
      if path[ptr] == '-' {
        ptr := ptr + 1;
        fromBack := true;
      }
      var idxLen;
      ReadNumbersAreSafe(path, ptr);
      idxLen, arrayIndex := ReadInteger(path, ptr);
      if idxLen == 0 {
        return;
      }
      ptr := ptr + idxLen;
    }
    ptr := ptr + 1;
    ok := true;
  }

  // ---------------------------------------------------------------- steps and paths

  datatype StepRead = BadStep | StepPastEnd | StepRead(step: Step, next: nat)

  function StepOfKey(key: KeyRead): Step {
    if key.recursive then if key.IsWildCard() then Descend else DescendKey(key.key)
    else if key.IsWildCard() then AnyKey else Key(key.key)
  }

  /** The step that starts at position `i`. */
  function StepAt(path: string, i: nat): (r: StepRead)
    requires i < |path|
    ensures r.StepRead? ==> i + 1 < r.next <= |path|
  {
    if i + 1 == |path| then BadStep
    else if path[i] == '.' then
      var key := KeyAt(path, i + 1);
      if key.IsValid() then StepRead(StepOfKey(key), i + 1 + key.charsRead) else BadStep
    else if path[i] == '[' then
      match IndexAt(path, i + 1)
      case BadIndex => BadStep
      case WildIndex(next) => StepRead(AnyIndex, next)
      case NumberedIndex(n, back, next) =>
        if next > |path| then StepPastEnd else StepRead(if back then BackIndex(n) else Index(n), next)
    else BadStep
  }

  /** What a whole path means: its steps, unless it is malformed or its last index runs past the end. */
  datatype PathRead = Malformed | PastEnd | Steps(steps: seq<Step>)

  function StepsAt(path: string, i: nat): PathRead
    requires i <= |path|
    decreases |path| - i
  {
    if i == |path| then Steps([])
    else
      match StepAt(path, i)
      case BadStep => Malformed
      case StepPastEnd => PastEnd
      case StepRead(step, next) =>
        match StepsAt(path, next)
        case Steps(rest) => Steps([step] + rest)
        case other => other
  }

  predicate AnyWild(steps: seq<Step>) {
    exists i :: 0 <= i < |steps| && steps[i].IsWild()
  }

  datatype PathCheck = Regular | Wildcard | PathError | ReadsPastEnd

  datatype StepCheck = StepError | StepPastPath | StepOk(next: nat, wild: bool)

  /** Checks the step at `start`. */
  method ValidateStep(path: string, start: nat) returns (check: StepCheck)
    requires start < |path|
    ensures match StepAt(path, start)
            case BadStep => check == StepError
            case StepPastEnd => check == StepPastPath
            case StepRead(step, next) => check == StepOk(next, step.IsWild())
  {
    hide KeyAt, IndexAt;
    var c, ptr := path[start], start + 1;
    if ptr == |path| {
      return StepError;
    }
    if c == '.' {
      var key := ReadKey(path, ptr);
      if !key.IsValid() {
        return StepError;
      }
      check := StepOk(ptr + key.charsRead, key.IsWildCard() || key.recursive);
    } else if c == '[' {
      var ok, next, arrayIndex, fromBack := ReadArrayIndex(path, ptr);
      if !ok {
        return StepError;
      }
      check := if next > |path| then StepPastPath else StepOk(next, arrayIndex == INVALID_INDEX);
    } else {
      return StepError;
    }
  }

  /** Classifies a path, as REGULAR or WILDCARD, or finds it malformed. */
  method ValidatePath(path: string) returns (check: PathCheck)
    requires |path| >= 1 && path[0] == '$'
    ensures match StepsAt(path, 1)
            case Malformed => check == PathError
            case PastEnd => check == ReadsPastEnd
            case Steps(steps) =>
              && (check == if AnyWild(steps) then Wildcard else Regular)
              && (check == Regular <==> forall k :: 0 <= k < |steps| ==> steps[k].Key? || steps[k].Index? || steps[k].BackIndex?)
  {
    hide StepAt, AnyWild;
    check := Regular;
    var ptr := 1;
    ghost var read: seq<Step> := [];
    NoStepsAreWild();
    PrecededByNothing(StepsAt(path, 1));
    while ptr != |path|
      invariant 1 <= ptr <= |path|
      invariant check == if AnyWild(read) then Wildcard else Regular
      invariant StepsAt(path, 1) == Preceded(read, StepsAt(path, ptr))
      decreases |path| - ptr
    {
      ghost var step := StepAt(path, ptr);
      var stepCheck := ValidateStep(path, ptr);
      match stepCheck {
        case StepError => return PathError;
        case StepPastPath => return ReadsPastEnd;
        case StepOk(next, wild) =>
          PrecededByOneMore(read, step.step, StepsAt(path, next));
          read := read + [step.step];
          if wild {
            check := Wildcard;
          }
          ptr := next;
      }
    }
    assert read + [] == read;
    OtherwiseWild(read);
  }

  lemma OtherwiseWild(steps: seq<Step>)
    ensures !AnyWild(steps) <==> forall k :: 0 <= k < |steps| ==> steps[k].Key? || steps[k].Index? || steps[k].BackIndex?
  {
  }

  lemma NoStepsAreWild()
    ensures !AnyWild([])
  {
  }

  lemma PrecededByNothing(rest: PathRead)
    ensures Preceded([], rest) == rest
  {
    if rest.Steps? {
      assert [] + rest.steps == rest.steps;
    }
  }

  /** Steps already read, followed by the rest of the path. */
  ghost function Preceded(read: seq<Step>, rest: PathRead): PathRead {
    match rest
    case Steps(steps) => Steps(read + steps)
    case other => other
  }

  lemma PrecededByOneMore(read: seq<Step>, step: Step, rest: PathRead)
    ensures Preceded(read, Preceded([step], rest)) == Preceded(read + [step], rest)
    ensures AnyWild(read + [step]) <==> AnyWild(read) || step.IsWild()
  {
    if rest.Steps? {
      assert read + ([step] + rest.steps) == read + [step] + rest.steps;
    }
    if AnyWild(read) {
      var i :| 0 <= i < |read| && read[i].IsWild();
      assert (read + [step])[i].IsWild();
    }
    assert (read + [step])[|read|] == step;
  }

  // ---------------------------------------------------------------- indexes that run past the end

  /** From position `i` to its end the path consists of digits. */
  ghost predicate DigitsToEnd(path: string, i: nat) {
    i <= |path| && forall j :: i <= j < |path| ==> IsDigit(path[j])
  }

  lemma {:induction false} DigitsReachTheEnd(path: string, i: nat, left: nat, idx: nat)
    requires i <= |path| && left <= SAFE_DIGITS
    ensures (DigitsAt(path, i, left, idx).Some? && DigitsAt(path, i, left, idx).value.1 == |path|)
       <==> (|path| - i == left && DigitsToEnd(path, i))
    decreases left
  {
    DigitsUnfold(path, i, left, idx);
    hide DigitsAt;
    if left > 0 && i < |path| && IsDigit(path[i]) {
      DigitsReachTheEnd(path, i + 1, left - 1, idx * 10 + DigitValue(path[i]));
    }
  }

  /** The length of the sign at position `i`: "#-", "-" or none. */
  ghost function SignLength(path: string, i: nat): nat
    requires i < |path|
  {
    if path[i] == '-' then 1 else if path[i] == '#' && i + 1 < |path| && path[i + 1] == '-' then 2 else 0
  }

  /** The validator reads past the end of a path exactly when its last step is an open bracket, perhaps a
      sign, and 19 digits with no closing bracket. */
  lemma PastEndExactly(path: string, i: nat)
    requires i < |path|
    ensures StepAt(path, i).StepPastEnd? <==>
              && path[i] == '[' && i + 1 < |path|
              && |path| - (i + 1 + SignLength(path, i + 1)) == SAFE_DIGITS
              && DigitsToEnd(path, i + 1 + SignLength(path, i + 1))
  {
    if i + 1 < |path| && path[i] == '[' {
      IndexPastEnd(path, i + 1);
    }
    hide IndexAt, DigitsToEnd;
  }

  lemma IndexPastEnd(path: string, i: nat)
    requires i < |path|
    ensures IndexAt(path, i).NumberedIndex? && IndexAt(path, i).next > |path| <==>
              |path| - (i + SignLength(path, i)) == SAFE_DIGITS && DigitsToEnd(path, i + SignLength(path, i))
  {
    var j := i + SignLength(path, i);
    DigitsReachTheEnd(path, j, SAFE_DIGITS, 0);
    if path[i] == '#' && j == i {
      assert !DigitsToEnd(path, j);
    }
    hide DigitsAt, DigitsToEnd;
  }

  // ---------------------------------------------------------------- brackets that are never closed

  /** `left` digits at position `i`, all inside the path. */
  ghost predicate AllDigits(path: string, i: nat, left: nat) {
    i + left <= |path| && forall j :: i <= j < i + left ==> IsDigit(path[j])
  }

  lemma {:induction false} DigitsStopAtBracket(path: string, i: nat, left: nat, idx: nat)
    requires i <= |path| && left <= SAFE_DIGITS
    ensures DigitsAt(path, i, left, idx).Some? && DigitsAt(path, i, left, idx).value.1 < |path|
              && path[DigitsAt(path, i, left, idx).value.1] != ']'
       <==> AllDigits(path, i, left) && i + left < |path| && path[i + left] != ']'
    decreases left
  {
    DigitsUnfold(path, i, left, idx);
    hide DigitsAt;
    if left > 0 && i < |path| && IsDigit(path[i]) {
      DigitsStopAtBracket(path, i + 1, left - 1, idx * 10 + DigitValue(path[i]));
    }
  }

  lemma NoDigit(path: string, i: nat, left: nat)
    requires i < |path| && !IsDigit(path[i]) && left > 0
    ensures !AllDigits(path, i, left)
  {
  }

  lemma IndexUnclosed(path: string, i: nat)
    requires i < |path|
    ensures IndexAt(path, i).WildIndex? ==> path[IndexAt(path, i).next - 1] == ']'
    ensures var j := i + SignLength(path, i);
            IndexAt(path, i).NumberedIndex? && IndexAt(path, i).next <= |path| && path[IndexAt(path, i).next - 1] != ']'
            <==> AllDigits(path, j, SAFE_DIGITS) && j + SAFE_DIGITS < |path| && path[j + SAFE_DIGITS] != ']'
  {
    hide DigitsAt, AllDigits, DigitsToEnd;
    var j := i + SignLength(path, i);
    DigitsUnfold(path, j, SAFE_DIGITS, 0);
    DigitsStopAtBracket(path, j, SAFE_DIGITS, 0);
    if j == i && (path[i] == '#' || path[i] == '*') {
      NoDigit(path, i, SAFE_DIGITS);
    }
  }

  /** A bracket is accepted inside the path with something else in the place of its closing bracket exactly when
      that comes after 19 digits: whatever it is, it is skipped. */
  lemma UnclosedExactly(path: string, i: nat)
    requires i + 1 < |path| && path[i] == '['
    ensures var j := i + 1 + SignLength(path, i + 1);
            StepAt(path, i).StepRead? && path[StepAt(path, i).next - 1] != ']'
            <==> AllDigits(path, j, SAFE_DIGITS) && j + SAFE_DIGITS < |path| && path[j + SAFE_DIGITS] != ']'
  {
    hide IndexAt, KeyAt, AllDigits;
    IndexUnclosed(path, i + 1);
  }

  /** For example, the letter after 19 digits is taken for the closing bracket. */
  lemma UnclosedExample()
    ensures StepsAt("$[0000000000000000000x.a", 1) == Steps([Index(0), Key("a")])
  {
    hide StepAt;
    var path := "$[0000000000000000000x.a";
    UnclosedIndex(path);
    LastKey(path);
    assert StepsAt(path, 24) == Steps([]);
    assert StepsAt(path, 22) == Steps([Key("a")] + []);
    assert [Index(0)] + [Key("a")] == [Index(0), Key("a")];
  }

  lemma UnclosedIndex(path: string)
    requires path == "$[0000000000000000000x.a"
    ensures StepAt(path, 1) == StepRead(Index(0), 22)
  {
    hide DigitsAt, KeyAt;
    ZerosAt(path, 2, SAFE_DIGITS);
  }

  lemma LastKey(path: string)
    requires path == "$[0000000000000000000x.a"
    ensures StepAt(path, 22) == StepRead(Key("a"), 24)
  {
    hide IndexAt, QuotedKey;
    assert BareEnd(path, 24) == 24;
    assert BareEnd(path, 23) == 24;
    assert path[23..24] == "a";
  }

  lemma {:induction false} ZerosAt(path: string, i: nat, left: nat)
    requires i + left < |path| && left <= SAFE_DIGITS && forall j :: i <= j < i + left ==> path[j] == '0'
    ensures DigitsAt(path, i, left, 0) == Some((0, i + left))
    decreases left
  {
    DigitsUnfold(path, i, left, 0);
    hide DigitsAt;
    if left > 0 {
      ZerosAt(path, i + 1, left - 1);
    }
  }
}
